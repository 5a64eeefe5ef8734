/** The grid searches of `PathFinding`: flood fill, breadth-first search and
    uniform-cost search over an abstract grid.  A cell is identified with its
    position; the grid supplies the cells with their entry weights (the
    cell's `Value`) and the neighbour order of `GetNeighbors`. */
module PathFinding {

  import opened Wrappers

  type Position = (int, int)

  /** The parts of `Grid2d` the searches use. */
  datatype Grid = Grid(weight: map<Position, nat>, neighbors: Position -> seq<Position>)

  /** No position occurs twice. */
  predicate Distinct(s: seq<Position>) {
    forall i, j :: 0 <= i < j < |s| ==> s[i] != s[j]
  }

  /** Neighbours of a cell are cells of the grid, each listed once. */
  ghost predicate ValidGrid(g: Grid) {
    && (forall p, i :: p in g.weight && 0 <= i < |g.neighbors(p)| ==> g.neighbors(p)[i] in g.weight)
    && (forall p :: p in g.weight ==> Distinct(g.neighbors(p)))
  }

  /** One move of a search: from a cell of the grid to one of its neighbours
      that satisfies the caller's constraint. */
  ghost predicate Step(g: Grid, constraint: Position -> bool, p: Position, q: Position) {
    p in g.weight && q in g.neighbors(p) && constraint(q)
  }

  /** A route through the grid made of `Step`s (the first cell need not
      satisfy the constraint, as the searches never test the start). */
  ghost predicate IsWalk(g: Grid, constraint: Position -> bool, w: seq<Position>) {
    && |w| >= 1
    && w[0] in g.weight
    && forall i :: 0 <= i < |w| - 1 ==> Step(g, constraint, w[i], w[i + 1])
  }

  ghost predicate Reachable(g: Grid, constraint: Position -> bool, start: Position, p: Position) {
    exists w :: IsWalk(g, constraint, w) && w[0] == start && w[|w| - 1] == p
  }

  /** `GetNeighbors(cell, filter)` with the searches' filter: the entries of
      `ns`, in order, that are not queued, not yet seen and satisfy the
      constraint. */
  function Unseen(ns: seq<Position>, queued: seq<Position>, seen: set<Position>,
                  constraint: Position -> bool): (r: seq<Position>)
    ensures forall x :: x in r <==> x in ns && x !in queued && x !in seen && constraint(x)
    ensures Distinct(ns) ==> Distinct(r)
  {
    if ns == [] then []
    else
      var front, x := ns[..|ns| - 1], ns[|ns| - 1];
      var r := Unseen(front, queued, seen, constraint);
      assert ns == front + [x];
      if x !in queued && x !in seen && constraint(x) then r + [x] else r
  }

  // ---------------------------------------------------------------------------
  // Walks

  lemma ReachableStart(g: Grid, constraint: Position -> bool, start: Position)
    requires start in g.weight
    ensures Reachable(g, constraint, start, start)
  {
    assert IsWalk(g, constraint, [start]);
  }

  /** A reachable cell's step leads to a reachable cell. */
  lemma ReachableStep(g: Grid, constraint: Position -> bool, start: Position, p: Position, q: Position)
    requires Reachable(g, constraint, start, p) && Step(g, constraint, p, q)
    ensures Reachable(g, constraint, start, q)
  {
    var w :| IsWalk(g, constraint, w) && w[0] == start && w[|w| - 1] == p;
    var w' := w + [q];
    assert IsWalk(g, constraint, w');
  }

  /** A walk that starts inside a set closed under `Step` stays inside it. */
  lemma {:induction false} WalkStaysInside(g: Grid, constraint: Position -> bool, s: set<Position>, w: seq<Position>)
    requires IsWalk(g, constraint, w) && w[0] in s
    requires forall v, n :: v in s && Step(g, constraint, v, n) ==> n in s
    ensures w[|w| - 1] in s
    decreases |w|
  {
    if |w| > 1 {
      var front := w[..|w| - 1];
      assert IsWalk(g, constraint, front);
      WalkStaysInside(g, constraint, s, front);
      assert Step(g, constraint, w[|w| - 2], w[|w| - 1]);
    }
  }

  /** A set that holds the start and is closed under `Step` holds every reachable cell. */
  lemma ClosedHoldsReachable(g: Grid, constraint: Position -> bool, start: Position, s: set<Position>, p: Position)
    requires start in s
    requires forall v, n :: v in s && Step(g, constraint, v, n) ==> n in s
    requires Reachable(g, constraint, start, p)
    ensures p in s
  {
    var w :| IsWalk(g, constraint, w) && w[0] == start && w[|w| - 1] == p;
    WalkStaysInside(g, constraint, s, w);
  }

  /** A list whose every entry is a step on from the next one, ending at
      `start`, is a route from `start` read backwards. */
  lemma {:induction false} BackChainReachable(g: Grid, constraint: Position -> bool, start: Position, path: seq<Position>)
    requires |path| >= 1 && path[|path| - 1] == start && start in g.weight
    requires forall i :: 0 <= i < |path| - 1 ==> Step(g, constraint, path[i + 1], path[i])
    ensures Reachable(g, constraint, start, path[0])
    decreases |path|
  {
    if |path| == 1 {
      ReachableStart(g, constraint, start);
    } else {
      var rest := path[1..];
      assert forall i :: 0 <= i < |rest| ==> rest[i] == path[i + 1];
      BackChainReachable(g, constraint, start, rest);
      assert Step(g, constraint, path[1], path[0]);
      ReachableStep(g, constraint, start, path[1], path[0]);
    }
  }

  /** Every cell of a predecessor map whose links are steps to cells of
      smaller rank can be reached from the start. */
  lemma {:induction false} TreeReachable(g: Grid, constraint: Position -> bool, start: Position,
                                         pred: map<Position, Position>, rank: map<Position, nat>, p: Position)
    requires start in g.weight && p in pred
    requires forall k {:trigger pred[k]} :: k in pred && k != start ==>
               pred[k] in pred && k in rank && pred[k] in rank && rank[pred[k]] < rank[k]
               && Step(g, constraint, pred[k], k)
    ensures Reachable(g, constraint, start, p)
    decreases if p in rank then rank[p] else 0
  {
    if p == start {
      ReachableStart(g, constraint, start);
    } else {
      TreeReachable(g, constraint, start, pred, rank, pred[p]);
      ReachableStep(g, constraint, start, pred[p], p);
    }
  }

  /** A search that ran out of cells to expand: when the expanded cells are
      the keys of such a predecessor map and every step out of them stays
      inside, they are exactly the cells reachable from the start. */
  lemma Exhausted(g: Grid, constraint: Position -> bool, start: Position,
                  pred: map<Position, Position>, rank: map<Position, nat>, expanded: set<Position>)
    requires start in g.weight && start in pred
    requires forall k {:trigger pred[k]} :: k in pred && k != start ==>
               pred[k] in pred && k in rank && pred[k] in rank && rank[pred[k]] < rank[k]
               && Step(g, constraint, pred[k], k)
    requires forall p :: p in pred <==> p in expanded
    requires forall e, n :: e in expanded && Step(g, constraint, e, n) ==> n in pred
    ensures forall p :: p in expanded <==> Reachable(g, constraint, start, p)
  {
    forall p
      ensures p in expanded <==> Reachable(g, constraint, start, p)
    {
      if p in expanded {
        TreeReachable(g, constraint, start, pred, rank, p);
      }
      if Reachable(g, constraint, start, p) {
        ClosedHoldsReachable(g, constraint, start, expanded, p);
      }
    }
  }

  /** The cells a search loop dequeued, in order: the start first, no cell
      twice, the final `current` last, and every earlier one expanded; when
      the loop did not stop at the target, exactly the expanded cells. */
  ghost predicate DequeueOrder(start: Position, dequeued: seq<Position>, expanded: set<Position>,
                               current: Position, found: bool)
  {
    && |dequeued| >= 1 && dequeued[0] == start && dequeued[|dequeued| - 1] == current
    && Distinct(dequeued)
    && (forall i :: 0 <= i < |dequeued| - 1 ==> dequeued[i] in expanded)
    && (!found ==> forall p :: p in dequeued <==> p in expanded)
  }

  /** The invariant behind `DequeueOrder` while the loop runs: the cells
      dequeued so far are the expanded ones, each once, in dequeue order. */
  ghost predicate Dequeuing(start: Position, dequeued: seq<Position>, expanded: set<Position>, current: Position)
  {
    && (forall p :: p in dequeued <==> p in expanded)
    && Distinct(dequeued)
    && (dequeued != [] ==> dequeued[0] == start && dequeued[|dequeued| - 1] == current)
  }

  /** Dequeuing a cell that was not expanded yet (the start, first) either
      ends the loop at it or expands it. */
  lemma DequeueNext(start: Position, dequeued: seq<Position>, expanded: set<Position>, current: Position,
                    next: Position)
    requires Dequeuing(start, dequeued, expanded, current)
    requires next !in expanded
    requires dequeued == [] ==> next == start
    ensures DequeueOrder(start, dequeued + [next], expanded, next, true)
    ensures Dequeuing(start, dequeued + [next], expanded + {next}, next)
  {
    DistinctAppend(dequeued, [next]);
    var d := dequeued + [next];
    assert forall i :: 0 <= i < |d| - 1 ==> d[i] == dequeued[i];
  }

  /** When the loop runs dry, the dequeued cells are exactly the expanded ones. */
  lemma DequeueDone(start: Position, dequeued: seq<Position>, expanded: set<Position>, current: Position)
    requires Dequeuing(start, dequeued, expanded, current)
    requires current in expanded
    ensures DequeueOrder(start, dequeued, expanded, current, false)
  {
  }

  // ---------------------------------------------------------------------------
  // FloodFill

  /** The bookkeeping part of the `FloodFill` invariant: no cell is queued
      twice, visited twice, or both queued and visited. */
  ghost predicate FloodShape(g: Grid, start: Position, queue: seq<Position>, visited: set<Position>, order: seq<Position>)
  {
    && Distinct(queue) && Distinct(order)
    && (forall p :: p in order <==> p in visited)
    && (forall p :: p in queue ==> p !in visited && p in g.weight)
    && visited <= g.weight.Keys
    && (order == [] ==> queue == [start])
    && (order != [] ==> order[0] == start)
  }

  /** Everything queued or visited is reachable. */
  ghost predicate FloodSound(g: Grid, constraint: Position -> bool, start: Position, queue: seq<Position>, visited: set<Position>)
  {
    forall p :: p in visited || p in queue ==> Reachable(g, constraint, start, p)
  }

  /** Every step out of a visited cell leads to a visited or queued cell. */
  ghost predicate FloodClosed(g: Grid, constraint: Position -> bool, queue: seq<Position>, visited: set<Position>)
  {
    forall v, n :: v in visited && Step(g, constraint, v, n) ==> n in visited || n in queue
  }

  /** `FloodFill`: visits every cell reachable from `start`, each exactly
      once; `order` is the order of the `visited.Add` calls. */
  method FloodFill(start: Position, g: Grid, constraint: Position -> bool)
    returns (visited: set<Position>, order: seq<Position>)
    requires ValidGrid(g) && start in g.weight
    ensures Distinct(order) && |order| >= 1 && order[0] == start
    ensures forall p :: p in order <==> p in visited
    ensures forall p :: p in visited <==> Reachable(g, constraint, start, p)
  {
    var queue := [start];
    visited := {};
    order := [];
    ReachableStart(g, constraint, start);
    while queue != []
      invariant FloodShape(g, start, queue, visited, order)
      invariant FloodSound(g, constraint, start, queue, visited)
      invariant FloodClosed(g, constraint, queue, visited)
      decreases |g.weight.Keys - visited|
    {
      var current := queue[0];
      assert queue == [current] + queue[1..];
      queue := queue[1..];
      FloodStepShape(g, start, constraint, current, queue, visited, order);
      FloodStepSound(g, constraint, start, current, queue, visited);
      FloodStepClosed(g, constraint, current, queue, visited);
      visited := visited + {current};
      order := order + [current];
      var neighbors := Unseen(g.neighbors(current), queue, visited, constraint);
      queue := queue + neighbors;
    }
    forall p | Reachable(g, constraint, start, p) ensures p in visited {
      ClosedHoldsReachable(g, constraint, start, visited, p);
    }
  }

  lemma FloodStepShape(g: Grid, start: Position, constraint: Position -> bool, current: Position,
                       rest: seq<Position>, visited: set<Position>, order: seq<Position>)
    requires ValidGrid(g)
    requires FloodShape(g, start, [current] + rest, visited, order)
    ensures var visited' := visited + {current};
      && FloodShape(g, start, rest + Unseen(g.neighbors(current), rest, visited', constraint), visited', order + [current])
      && |g.weight.Keys - visited'| < |g.weight.Keys - visited|
  {
    PopDistinct(current, rest);
    var visited' := visited + {current};
    var neighbors := Unseen(g.neighbors(current), rest, visited', constraint);
    DistinctAppend(rest, neighbors);
    forall n | n in neighbors ensures n in g.weight {
      var i :| 0 <= i < |g.neighbors(current)| && g.neighbors(current)[i] == n;
    }
    assert current in [current] + rest;
    DistinctAppend(order, [current]);
    var queue' := rest + neighbors;
    forall p | p in queue' ensures p !in visited' && p in g.weight {
      if p in rest {
        assert p in [current] + rest;
      }
    }
    assert g.weight.Keys - visited == (g.weight.Keys - visited') + {current};
    var order' := order + [current];
    assert forall p :: p in order' <==> p in visited';
    assert order' != [] ==> order'[0] == start;
  }

  lemma FloodStepSound(g: Grid, constraint: Position -> bool, start: Position, current: Position,
                       rest: seq<Position>, visited: set<Position>)
    requires current in g.weight
    requires FloodSound(g, constraint, start, [current] + rest, visited)
    ensures var visited' := visited + {current};
      FloodSound(g, constraint, start, rest + Unseen(g.neighbors(current), rest, visited', constraint), visited')
  {
    var queue := [current] + rest;
    assert current in queue;
    assert forall p :: p in rest ==> p in queue;
    var visited' := visited + {current};
    var neighbors := Unseen(g.neighbors(current), rest, visited', constraint);
    forall n | n in neighbors ensures Reachable(g, constraint, start, n) {
      ReachableStep(g, constraint, start, current, n);
    }
  }

  lemma FloodStepClosed(g: Grid, constraint: Position -> bool, current: Position,
                        rest: seq<Position>, visited: set<Position>)
    requires FloodClosed(g, constraint, [current] + rest, visited)
    ensures var visited' := visited + {current};
      FloodClosed(g, constraint, rest + Unseen(g.neighbors(current), rest, visited', constraint), visited')
  {
    var queue := [current] + rest;
    assert forall p :: p in queue ==> p == current || p in rest;
  }

  // ---------------------------------------------------------------------------
  // Path reconstruction

  /** `path` runs from `from` to `start` by following `pred` links, and no
      link is taken out of `start`. */
  ghost predicate PredChain(pred: map<Position, Position>, start: Position, from: Position, path: seq<Position>)
  {
    && |path| >= 1 && path[0] == from && path[|path| - 1] == start
    && (forall i :: 0 <= i < |path| ==> path[i] in pred)
    && (forall i :: 0 <= i < |path| - 1 ==> path[i] != start && path[i + 1] == pred[path[i]])
  }

  /** The reconstruction loop shared by both searches: follow the recorded
      predecessors from `from` until the start is reached, then add the start.
      `rank` strictly decreases along the predecessor links, which is why the
      walk ends. */
  method Reconstruct(pred: map<Position, Position>, start: Position, from: Position, ghost rank: map<Position, nat>)
    returns (path: seq<Position>)
    requires from in pred && start in pred
    requires forall k {:trigger pred[k]} :: k in pred && k != start ==> pred[k] in pred && k in rank && pred[k] in rank && rank[pred[k]] < rank[k]
    ensures PredChain(pred, start, from, path)
  {
    path := [];
    var current := from;
    while current != start
      invariant current in pred
      invariant PredPrefix(pred, start, from, path, current)
      decreases if current in rank then rank[current] else 0
    {
      PrefixStep(pred, start, from, path, current);
      path := path + [current];
      current := pred[current];
    }
    PrefixEnd(pred, start, from, path);
    path := path + [start];
  }

  /** The path so far runs from `from` along `pred` links that avoid
      `start`, and `current` is where the next link leads. */
  ghost predicate PredPrefix(pred: map<Position, Position>, start: Position, from: Position,
                             path: seq<Position>, current: Position)
  {
    && (forall i :: 0 <= i < |path| ==> path[i] in pred && path[i] != start)
    && (forall i :: 0 <= i < |path| - 1 ==> path[i + 1] == pred[path[i]])
    && (|path| == 0 ==> current == from)
    && (|path| > 0 ==> path[0] == from && current == pred[path[|path| - 1]])
  }

  lemma PrefixStep(pred: map<Position, Position>, start: Position, from: Position,
                   path: seq<Position>, current: Position)
    requires current in pred && current != start
    requires PredPrefix(pred, start, from, path, current)
    ensures PredPrefix(pred, start, from, path + [current], pred[current])
  {
    var path' := path + [current];
    assert forall i :: 0 <= i < |path| ==> path'[i] == path[i];
  }

  lemma PrefixEnd(pred: map<Position, Position>, start: Position, from: Position, path: seq<Position>)
    requires start in pred
    requires PredPrefix(pred, start, from, path, start)
    ensures PredChain(pred, start, from, path + [start])
  {
    var path' := path + [start];
    assert forall i :: 0 <= i < |path| ==> path'[i] == path[i];
  }

  /** Along a reconstructed path the recorded depth drops by one per link, so
      the path has one more entry than the depth of its first cell. */
  lemma {:induction false} ChainLength(start: Position, dist: map<Position, nat>, path: seq<Position>)
    requires start in dist && dist[start] == 0
    requires |path| >= 1 && path[|path| - 1] == start
    requires forall i :: 0 <= i < |path| ==> path[i] in dist
    requires forall i :: 0 <= i < |path| - 1 ==> dist[path[i]] == dist[path[i + 1]] + 1
    ensures dist[path[0]] == |path| - 1
    decreases |path|
  {
    if |path| > 1 {
      var rest := path[1..];
      assert forall i :: 0 <= i < |rest| ==> rest[i] == path[i + 1];
      ChainLength(start, dist, rest);
    }
  }

  /** The first cell of a walk that lies outside `s`. */
  lemma FirstOutside(w: seq<Position>, s: set<Position>) returns (j: nat)
    requires |w| > 0 && w[|w| - 1] !in s
    ensures j < |w| && w[j] !in s
    ensures forall i :: 0 <= i < j ==> w[i] in s
  {
    j := 0;
    while w[j] in s
      invariant j < |w|
      invariant forall i :: 0 <= i < j ==> w[i] in s
      decreases |w| - j
    {
      j := j + 1;
    }
  }

  /** `m'` is `m` after `TryAdd(n, v)` for every `n` of `ns`: the old
      entries are kept and every new key maps to `v`. */
  ghost predicate Extends<V>(m': map<Position, V>, m: map<Position, V>, ns: seq<Position>, v: V)
  {
    && (forall k :: k in m' <==> k in m || k in ns)
    && (forall k :: k in m ==> m'[k] == m[k])
    && (forall k :: k in m' && k !in m ==> m'[k] == v)
  }

  /** `neighbors.ForEach(n => visited.TryAdd(n, current))`: records `from`
      as the predecessor of every cell of `ns` not yet in the map. */
  method TryAddAll(pred: map<Position, Position>, ns: seq<Position>, from: Position)
    returns (pred': map<Position, Position>)
    ensures Extends(pred', pred, ns, from)
  {
    pred' := pred;
    for k := 0 to |ns|
      invariant pred'.Keys == pred.Keys + set n | n in ns[..k]
      invariant forall p :: p in pred ==> pred'[p] == pred[p]
      invariant forall p :: p in pred' && p !in pred ==> pred'[p] == from
    {
      assert ns[..k + 1] == ns[..k] + [ns[k]];
      if ns[k] !in pred' {
        pred' := pred'[ns[k] := from];
      }
    }
    assert ns[..|ns|] == ns;
    assert forall n :: n in ns <==> n in ns[..|ns|];
  }

  /** The hop counts after discovering the cells of `ns` at depth `d`. */
  ghost function Discover(dist: map<Position, nat>, ns: seq<Position>, d: nat): (r: map<Position, nat>)
    ensures Extends(r, dist, ns, d)
  {
    dist + map n | n in ns && n !in dist :: d
  }

  // ---------------------------------------------------------------------------
  // BreadthFirstSearch
  //
  // Ghost state: `dist` is the hop count at which a cell was discovered and
  // `expanded` the cells dequeued without being the target.

  /** Bookkeeping: the discovered cells are the expanded ones and the queued
      ones, which are disjoint; the queue holds no cell twice. */
  ghost predicate BfsShape(g: Grid, start: Position, target: Position, queue: seq<Position>,
                           pred: map<Position, Position>, dist: map<Position, nat>, expanded: set<Position>)
  {
    && start in dist && dist[start] == 0
    && pred.Keys == dist.Keys
    && (forall p :: p in dist <==> p in expanded || p in queue)
    && (forall p :: p in queue ==> p !in expanded)
    && Distinct(queue)
    && dist.Keys <= g.weight.Keys
    && target !in expanded
  }

  /** Every discovered cell other than the start was found by stepping from
      its predecessor, an expanded cell one hop nearer the start. */
  ghost predicate BfsTree(g: Grid, constraint: Position -> bool, start: Position,
                          pred: map<Position, Position>, dist: map<Position, nat>, expanded: set<Position>)
  {
    forall k {:trigger pred[k]} :: k in dist && k != start ==>
      && k in pred && pred[k] in expanded && pred[k] in dist
      && Step(g, constraint, pred[k], k) && dist[k] == dist[pred[k]] + 1
  }

  /** The queue is ordered by hop count: its first `split` cells are
      `level` hops from the start, the others `level + 1`, and no expanded
      cell is further than `level`. */
  ghost predicate BfsOrder(queue: seq<Position>, dist: map<Position, nat>, expanded: set<Position>, level: nat, split: nat)
  {
    && split <= |queue|
    && (forall i :: 0 <= i < |queue| ==> queue[i] in dist && dist[queue[i]] == if i < split then level else level + 1)
    && (forall e :: e in expanded ==> e in dist && dist[e] <= level)
  }

  /** Every step out of an expanded cell leads to a discovered cell at most
      one hop further. */
  ghost predicate BfsClosed(g: Grid, constraint: Position -> bool, dist: map<Position, nat>, expanded: set<Position>)
  {
    forall e, n :: e in expanded && Step(g, constraint, e, n) ==> e in dist && n in dist && dist[n] <= dist[e] + 1
  }

  /** `BreadthFirstSearch`: the path runs from the final `current` back to
      the start; `found` records that the loop ended at the target.  A found
      path is a shortest route, and the target is missed only when no route
      reaches it. */
  method BreadthFirstSearch(start: Position, target: Position, g: Grid, constraint: Position -> bool)
    returns (path: seq<Position>, found: bool, ghost dequeued: seq<Position>)
    requires ValidGrid(g) && start in g.weight
    ensures |path| >= 1 && path[|path| - 1] == start
    ensures forall i :: 0 <= i < |path| - 1 ==> path[i] != start
    ensures start == target ==> path == [start]
    ensures forall i :: 0 <= i < |path| - 1 ==> Step(g, constraint, path[i + 1], path[i])
    ensures found <==> path[0] == target
    ensures found <==> Reachable(g, constraint, start, target)
    ensures found ==> forall w :: IsWalk(g, constraint, w) && w[0] == start && w[|w| - 1] == target ==> |path| <= |w|
    ensures |dequeued| >= 1 && dequeued[0] == start && Distinct(dequeued)
    ensures path[0] == dequeued[|dequeued| - 1]
    ensures forall i :: 0 <= i < |dequeued| - 1 ==> dequeued[i] != target
    ensures !found ==> forall p :: p in dequeued <==> Reachable(g, constraint, start, p)
  {
    var pred, current;
    ghost var dist, expanded;
    pred, current, found, dist, expanded, dequeued := BfsExplore(start, target, g, constraint);
    BfsRanked(g, constraint, start, target, pred, dist, expanded, current, found);
    path := Reconstruct(pred, start, current, dist);
    BfsConclusion(g, constraint, start, target, pred, dist, expanded, current, found, path);
    if !found {
      Exhausted(g, constraint, start, pred, dist, expanded);
    }
  }

  /** The state in which the search loop of `BreadthFirstSearch` ends: it
      stopped at the target, or it expanded every cell it discovered. */
  ghost predicate BfsExit(g: Grid, constraint: Position -> bool, start: Position, target: Position,
                          pred: map<Position, Position>, dist: map<Position, nat>, expanded: set<Position>,
                          current: Position, found: bool)
  {
    && start in g.weight && start in dist && dist[start] == 0 && pred.Keys == dist.Keys
    && BfsTree(g, constraint, start, pred, dist, expanded)
    && BfsClosed(g, constraint, dist, expanded)
    && current in dist && target !in expanded
    && (found ==> current == target)
    && (found ==> forall w :: IsWalk(g, constraint, w) && w[0] == start && w[|w| - 1] == target ==> dist[target] < |w|)
    && (!found ==> current in expanded && forall p :: p in dist <==> p in expanded)
  }

  /** The search loop of `BreadthFirstSearch`: dequeue a cell, stop if it is
      the target, otherwise record its unseen neighbours and enqueue them. */
  method BfsExplore(start: Position, target: Position, g: Grid, constraint: Position -> bool)
    returns (pred: map<Position, Position>, current: Position, found: bool,
             ghost dist: map<Position, nat>, ghost expanded: set<Position>, ghost dequeued: seq<Position>)
    requires ValidGrid(g) && start in g.weight
    ensures BfsExit(g, constraint, start, target, pred, dist, expanded, current, found)
    ensures DequeueOrder(start, dequeued, expanded, current, found)
  {
    var queue := [start];
    pred := map[start := (0, 0)];  // the sentinel `Cell((0, 0))`, never followed
    dist := map[start := 0];
    expanded := {};
    ghost var level: nat, split: nat := 0, 1;
    dequeued := [];
    current := start;
    found := false;
    while queue != []
      invariant BfsInv(g, constraint, start, target, queue, pred, dist, expanded, level, split)
      invariant current in dist && (current in expanded || expanded == {})
      invariant !found
      invariant Dequeuing(start, dequeued, expanded, current)
      invariant dequeued == [] ==> queue == [start]
      decreases |g.weight.Keys - expanded|
    {
      DequeueNext(start, dequeued, expanded, current, queue[0]);
      current := queue[0];
      dequeued := dequeued + [current];
      if current == target {
        found := true;
        BfsFound(g, constraint, start, target, queue, pred, dist, expanded, level, split);
        return;
      }
      var rest := queue[1..];
      var neighbors := Unseen(g.neighbors(current), rest, pred.Keys, constraint);
      ghost var pred0, dist0 := pred, dist;
      pred := TryAddAll(pred, neighbors, current);
      dist := Discover(dist, neighbors, dist[current] + 1);
      level, split := BfsStep(g, constraint, start, target, queue, pred0, dist0, expanded, level, split,
                              neighbors, pred, dist);
      queue := rest + neighbors;
      expanded := expanded + {current};
    }
    assert current in expanded;
    DequeueDone(start, dequeued, expanded, current);
  }

  /** Predecessor links lead to strictly smaller hop counts, so following
      them from any discovered cell ends at the start. */
  lemma BfsRanked(g: Grid, constraint: Position -> bool, start: Position, target: Position,
                  pred: map<Position, Position>, dist: map<Position, nat>, expanded: set<Position>,
                  current: Position, found: bool)
    requires BfsExit(g, constraint, start, target, pred, dist, expanded, current, found)
    ensures current in pred && start in pred
    ensures forall k {:trigger pred[k]} :: k in pred && k != start ==>
              pred[k] in pred && k in dist && pred[k] in dist && dist[pred[k]] < dist[k]
              && Step(g, constraint, pred[k], k)
  {
  }

  /** What the reconstructed path means once the search loop has ended,
      either at the target or with an empty queue. */
  lemma BfsConclusion(g: Grid, constraint: Position -> bool, start: Position, target: Position,
                      pred: map<Position, Position>, dist: map<Position, nat>, expanded: set<Position>,
                      current: Position, found: bool, path: seq<Position>)
    requires BfsExit(g, constraint, start, target, pred, dist, expanded, current, found)
    requires PredChain(pred, start, current, path)
    ensures |path| >= 1 && path[|path| - 1] == start
    ensures forall i :: 0 <= i < |path| - 1 ==> path[i] != start
    ensures start == target ==> path == [start]
    ensures forall i :: 0 <= i < |path| - 1 ==> Step(g, constraint, path[i + 1], path[i])
    ensures found <==> path[0] == target
    ensures found <==> Reachable(g, constraint, start, target)
    ensures found ==> forall w :: IsWalk(g, constraint, w) && w[0] == start && w[|w| - 1] == target ==> |path| <= |w|
  {
    forall i | 0 <= i < |path| - 1
      ensures Step(g, constraint, path[i + 1], path[i]) && dist[path[i]] == dist[path[i + 1]] + 1
    {
      assert path[i] in dist && path[i] != start;
    }
    ChainLength(start, dist, path);
    if found {
      BackChainReachable(g, constraint, start, path);
    } else if Reachable(g, constraint, start, target) {
      ClosedHoldsReachable(g, constraint, start, expanded, target);
    }
  }

  /** The invariant of the search loop. */
  ghost predicate BfsInv(g: Grid, constraint: Position -> bool, start: Position, target: Position,
                         queue: seq<Position>, pred: map<Position, Position>, dist: map<Position, nat>,
                         expanded: set<Position>, level: nat, split: nat)
  {
    && BfsShape(g, start, target, queue, pred, dist, expanded)
    && BfsTree(g, constraint, start, pred, dist, expanded)
    && BfsOrder(queue, dist, expanded, level, split)
    && BfsClosed(g, constraint, dist, expanded)
  }

  /** One iteration of the search loop that does not dequeue the target
      keeps the invariant and expands one more cell. */
  lemma BfsStep(g: Grid, constraint: Position -> bool, start: Position, target: Position, queue: seq<Position>,
                pred: map<Position, Position>, dist: map<Position, nat>, expanded: set<Position>,
                level: nat, split: nat, ns: seq<Position>, pred': map<Position, Position>, dist': map<Position, nat>)
    returns (level': nat, split': nat)
    requires ValidGrid(g)
    requires BfsInv(g, constraint, start, target, queue, pred, dist, expanded, level, split)
    requires |queue| > 0 && queue[0] != target
    requires ns == Unseen(g.neighbors(queue[0]), queue[1..], pred.Keys, constraint)
    requires Extends(pred', pred, ns, queue[0])
    requires queue[0] in dist && Extends(dist', dist, ns, dist[queue[0]] + 1)
    ensures BfsInv(g, constraint, start, target, queue[1..] + ns, pred', dist', expanded + {queue[0]}, level', split')
    ensures queue[0] in dist'
    ensures |g.weight.Keys - (expanded + {queue[0]})| < |g.weight.Keys - expanded|
  {
    BfsStepShape(g, constraint, start, target, queue, pred, dist, expanded, ns, pred', dist');
    BfsStepTree(g, constraint, start, target, queue, pred, dist, expanded, ns, pred', dist');
    BfsStepClosed(g, constraint, start, target, queue, pred, dist, expanded, level, split, ns, dist');
    level', split' := BfsStepOrder(queue, dist, expanded, level, split, ns, dist');
  }

  /** When the target reaches the front of the queue, its hop count is a
      lower bound on the length of every route to it. */
  lemma BfsFound(g: Grid, constraint: Position -> bool, start: Position, target: Position, queue: seq<Position>,
                 pred: map<Position, Position>, dist: map<Position, nat>, expanded: set<Position>,
                 level: nat, split: nat)
    requires BfsInv(g, constraint, start, target, queue, pred, dist, expanded, level, split)
    requires |queue| > 0 && queue[0] == target
    ensures target in dist
    ensures forall w :: IsWalk(g, constraint, w) && w[0] == start && w[|w| - 1] == target ==> dist[target] < |w|
  {
    forall w | IsWalk(g, constraint, w) && w[0] == start && w[|w| - 1] == target
      ensures dist[target] < |w|
    {
      FrontierBound(g, constraint, start, target, queue, pred, dist, expanded, level, split, w);
    }
  }

  /** Every route from the start that leaves the expanded cells passes a
      queued cell no nearer than the queue's front: so the front's hop count
      bounds the route's length. */
  lemma FrontierBound(g: Grid, constraint: Position -> bool, start: Position, target: Position, queue: seq<Position>,
                      pred: map<Position, Position>, dist: map<Position, nat>, expanded: set<Position>,
                      level: nat, split: nat, w: seq<Position>)
    requires BfsShape(g, start, target, queue, pred, dist, expanded)
    requires BfsOrder(queue, dist, expanded, level, split)
    requires BfsClosed(g, constraint, dist, expanded)
    requires IsWalk(g, constraint, w) && w[0] == start && w[|w| - 1] !in expanded
    ensures |queue| > 0 && queue[0] in dist && dist[queue[0]] <= |w| - 1
  {
    var j := FirstOutside(w, expanded);
    HopsInside(g, constraint, start, dist, expanded, w, j);
    var idx :| 0 <= idx < |queue| && queue[idx] == w[j];
    assert queue[0] in dist && dist[queue[0]] <= dist[queue[idx]];
  }

  /** Along a route from the start whose first `j` cells are expanded, cell
      `j` is discovered with at most `j` hops. */
  lemma {:induction false} HopsInside(g: Grid, constraint: Position -> bool, start: Position,
                                      dist: map<Position, nat>, expanded: set<Position>, w: seq<Position>, j: nat)
    requires BfsClosed(g, constraint, dist, expanded)
    requires start in dist && dist[start] == 0
    requires IsWalk(g, constraint, w) && w[0] == start && j < |w|
    requires forall i :: 0 <= i < j ==> w[i] in expanded
    ensures w[j] in dist && dist[w[j]] <= j
    decreases j
  {
    if j > 0 {
      HopsInside(g, constraint, start, dist, expanded, w, j - 1);
      assert Step(g, constraint, w[j - 1], w[j]);
    }
  }

  lemma BfsStepShape(g: Grid, constraint: Position -> bool, start: Position, target: Position,
                     queue: seq<Position>,
                     pred: map<Position, Position>, dist: map<Position, nat>, expanded: set<Position>,
                     ns: seq<Position>, pred': map<Position, Position>, dist': map<Position, nat>)
    requires |queue| > 0
    requires ValidGrid(g)
    requires BfsShape(g, start, target, queue, pred, dist, expanded)
    requires queue[0] != target
    requires ns == Unseen(g.neighbors(queue[0]), queue[1..], pred.Keys, constraint)
    requires Extends(pred', pred, ns, queue[0])
    requires queue[0] in dist && Extends(dist', dist, ns, dist[queue[0]] + 1)
    ensures BfsShape(g, start, target, queue[1..] + ns, pred', dist', expanded + {queue[0]})
    ensures |g.weight.Keys - (expanded + {queue[0]})| < |g.weight.Keys - expanded|
  {
    Requeue(queue, ns);
    NeighborsInGrid(g, queue[0], ns);
    StepKeys(queue, dist, expanded, ns, pred, pred', dist');
    ExpandOne(g.weight.Keys, expanded, queue[0]);
  }

  /** Dequeuing the front of a queue without duplicates and enqueuing cells
      it does not hold keeps it free of duplicates. */
  lemma Requeue(queue: seq<Position>, ns: seq<Position>)
    requires |queue| > 0 && Distinct(queue) && Distinct(ns)
    requires forall n :: n in ns ==> n !in queue[1..]
    ensures Distinct(queue[1..] + ns) && queue[0] !in queue[1..]
  {
    assert queue == [queue[0]] + queue[1..];
    PopDistinct(queue[0], queue[1..]);
    DistinctAppend(queue[1..], ns);
  }

  /** Neighbours of a grid cell are grid cells. */
  lemma NeighborsInGrid(g: Grid, p: Position, ns: seq<Position>)
    requires ValidGrid(g) && p in g.weight
    requires forall n :: n in ns ==> n in g.neighbors(p)
    ensures forall n :: n in ns ==> n in g.weight
  {
    forall n | n in ns ensures n in g.weight {
      var i :| 0 <= i < |g.neighbors(p)| && g.neighbors(p)[i] == n;
    }
  }

  /** Expanding one more cell of the grid leaves fewer cells unexpanded. */
  lemma ExpandOne(cells: set<Position>, expanded: set<Position>, p: Position)
    requires p in cells && p !in expanded
    ensures |cells - (expanded + {p})| < |cells - expanded|
  {
    assert cells - expanded == (cells - (expanded + {p})) + {p};
  }

  /** Moving the front of the queue to the expanded cells and enqueuing the
      newly discovered cells keeps "discovered = expanded or queued". */
  lemma StepKeys(queue: seq<Position>, dist: map<Position, nat>, expanded: set<Position>, ns: seq<Position>,
                    pred: map<Position, Position>, pred': map<Position, Position>, dist': map<Position, nat>)
    requires |queue| > 0 && queue[0] !in queue[1..]
    requires pred.Keys == dist.Keys
    requires forall p :: p in dist <==> p in expanded || p in queue
    requires forall p :: p in queue ==> p !in expanded
    requires forall k :: k in ns ==> k !in pred
    requires Extends(pred', pred, ns, queue[0])
    requires queue[0] in dist && Extends(dist', dist, ns, dist[queue[0]] + 1)
    ensures pred'.Keys == dist'.Keys
    ensures forall p :: p in dist' <==> p in expanded + {queue[0]} || p in queue[1..] + ns
    ensures forall p :: p in queue[1..] + ns ==> p !in expanded + {queue[0]}
  {
    var current, rest := queue[0], queue[1..];
    assert queue == [current] + rest;
    forall p ensures p in dist' <==> p in expanded + {current} || p in rest + ns {
      assert p in queue <==> p == current || p in rest;
      assert p in rest + ns <==> p in rest || p in ns;
    }
    forall p | p in rest + ns ensures p !in expanded + {current} {
      if p in rest {
        assert p in queue;
      } else {
        assert p in ns && p !in dist;
        assert current in queue;
      }
    }
  }

  /** Dequeuing the front of a queue without duplicates. */
  lemma PopDistinct(current: Position, rest: seq<Position>)
    requires Distinct([current] + rest)
    ensures Distinct(rest) && current !in rest
  {
    var queue := [current] + rest;
    forall i | 0 <= i < |rest| ensures rest[i] != current {
      assert rest[i] == queue[i + 1] && current == queue[0];
    }
    forall i, j | 0 <= i < j < |rest| ensures rest[i] != rest[j] {
      assert rest[i] == queue[i + 1] && rest[j] == queue[j + 1];
    }
  }

  /** Enqueuing cells that are not queued already keeps the queue free of
      duplicates. */
  lemma DistinctAppend(s: seq<Position>, t: seq<Position>)
    requires Distinct(s) && Distinct(t)
    requires forall p :: p in t ==> p !in s
    ensures Distinct(s + t)
  {
    var u := s + t;
    forall i, j | 0 <= i < j < |u| ensures u[i] != u[j] {
      if j < |s| {
        assert u[i] == s[i] && u[j] == s[j];
      } else if i >= |s| {
        assert u[i] == t[i - |s|] && u[j] == t[j - |s|];
      } else {
        assert u[i] in s && u[j] in t;
      }
    }
  }

  lemma BfsStepTree(g: Grid, constraint: Position -> bool, start: Position, target: Position,
                    queue: seq<Position>,
                    pred: map<Position, Position>, dist: map<Position, nat>, expanded: set<Position>,
                    ns: seq<Position>, pred': map<Position, Position>, dist': map<Position, nat>)
    requires |queue| > 0
    requires pred.Keys == dist.Keys && queue[0] in dist && queue[0] in g.weight
    requires BfsTree(g, constraint, start, pred, dist, expanded)
    requires ns == Unseen(g.neighbors(queue[0]), queue[1..], pred.Keys, constraint)
    requires Extends(pred', pred, ns, queue[0])
    requires Extends(dist', dist, ns, dist[queue[0]] + 1)
    ensures BfsTree(g, constraint, start, pred', dist', expanded + {queue[0]})
  {
    var current := queue[0];
    forall k | k in dist' && k != start
      ensures k in pred' && pred'[k] in expanded + {current} && pred'[k] in dist'
      ensures Step(g, constraint, pred'[k], k) && dist'[k] == dist'[pred'[k]] + 1
    {
      if k in ns {
        assert k !in dist;
      } else {
        assert k in dist;
      }
    }
  }

  lemma BfsStepOrder(queue: seq<Position>, dist: map<Position, nat>, expanded: set<Position>,
                     level: nat, split: nat, ns: seq<Position>, dist': map<Position, nat>)
    returns (level': nat, split': nat)
    requires |queue| > 0
    requires BfsOrder(queue, dist, expanded, level, split)
    requires forall p :: p in ns ==> p !in dist
    requires queue[0] in dist && Extends(dist', dist, ns, dist[queue[0]] + 1)
    ensures BfsOrder(queue[1..] + ns, dist', expanded + {queue[0]}, level', split')
  {
    var current, rest := queue[0], queue[1..];
    assert queue == [current] + rest;
    if split == 0 {
      level', split' := level + 1, |rest|;
    } else {
      level', split' := level, split - 1;
    }
    assert dist[current] == level';
    var queue' := rest + ns;
    forall i | 0 <= i < |queue'|
      ensures queue'[i] in dist' && dist'[queue'[i]] == if i < split' then level' else level' + 1
    {
      if i < |rest| {
        assert queue'[i] == queue[i + 1];
      } else {
        assert queue'[i] in ns;
      }
    }
  }

  lemma BfsStepClosed(g: Grid, constraint: Position -> bool, start: Position, target: Position,
                      queue: seq<Position>,
                      pred: map<Position, Position>, dist: map<Position, nat>, expanded: set<Position>,
                      level: nat, split: nat, ns: seq<Position>, dist': map<Position, nat>)
    requires |queue| > 0
    requires BfsShape(g, start, target, queue, pred, dist, expanded)
    requires BfsOrder(queue, dist, expanded, level, split)
    requires BfsClosed(g, constraint, dist, expanded)
    requires ns == Unseen(g.neighbors(queue[0]), queue[1..], pred.Keys, constraint)
    requires queue[0] in dist && Extends(dist', dist, ns, dist[queue[0]] + 1)
    ensures BfsClosed(g, constraint, dist', expanded + {queue[0]})
  {
    var current, rest := queue[0], queue[1..];
    assert queue == [current] + rest;
    assert current in queue;
    forall n | Step(g, constraint, current, n)
      ensures n in dist' && dist'[n] <= dist'[current] + 1
    {
      if n in dist {
        if n !in expanded {
          var i :| 0 <= i < |queue| && queue[i] == n;
          assert queue[0] == current;
        }
      } else {
        assert n !in rest by {
          assert forall p :: p in rest ==> p in queue;
        }
        assert n in ns;
      }
    }
  }

  // ---------------------------------------------------------------------------
  // UniformCostSearch
  //
  // A cell is never enqueued twice (proved below), so the priority queue is
  // a map from cell to priority, and `TryDequeue` takes any cell of least
  // priority.  Ghost state: `hops` counts the predecessor links back to the
  // start, `expanded` holds the cells dequeued without being the target.

  /** The entry weight of a cell: its `Value`. */
  ghost function Weight(g: Grid, p: Position): nat {
    if p in g.weight then g.weight[p] else 0
  }

  /** The summed entry weights of the cells of `s`. */
  ghost function Cost(g: Grid, s: seq<Position>): nat {
    if s == [] then 0 else Cost(g, s[..|s| - 1]) + Weight(g, s[|s| - 1])
  }

  /** The heuristic that turns the search into Dijkstra's algorithm. */
  ghost predicate ZeroHeuristic(heuristic: (Position, Position) -> int) {
    forall a, b :: heuristic(a, b) == 0
  }

  /** The priority a discovered cell is enqueued with: 0 for the start,
      otherwise its cost plus the heuristic's estimate towards the target. */
  ghost function Priority(costs: map<Position, int>, heuristic: (Position, Position) -> int,
                          start: Position, target: Position, p: Position): int
    requires p in costs
  {
    if p == start then 0 else costs[p] + heuristic(target, p)
  }

  /** `Dictionary.TryGetValue`. */
  function TryGetValue(m: map<Position, int>, k: Position): (r: Option<int>)
    ensures r.Some? <==> k in m
    ensures r.Some? ==> r.value == m[k]
  {
    if k in m then Some(m[k]) else None
  }

  /** The test `costs.TryGetValue(n, out var value) && cost < value`. */
  predicate Improves(known: Option<int>, cost: int) {
    known.Some? && cost < known.value
  }

  /** `queue.UnorderedItems.Contains((n, priority))`. */
  predicate Contains(queue: map<Position, int>, n: Position, priority: int) {
    n in queue && queue[n] == priority
  }

  /** `costs'` is `costs` with a cost for every cell of `ns`: its weight
      plus the priority `cost` its neighbour was dequeued with. */
  ghost predicate Costed(g: Grid, costs': map<Position, int>, costs: map<Position, int>, ns: seq<Position>, cost: int)
  {
    && (forall k :: k in costs' <==> k in costs || k in ns)
    && (forall k :: k in costs ==> costs'[k] == costs[k])
    && (forall k :: k in costs' && k !in costs ==> costs'[k] == cost + Weight(g, k))
  }

  /** `queue'` is `queue` with every cell of `ns` enqueued at its cost plus
      the heuristic's estimate. */
  ghost predicate Enqueued(queue': map<Position, int>, queue: map<Position, int>, ns: seq<Position>,
                           costs: map<Position, int>, heuristic: (Position, Position) -> int, target: Position)
  {
    && (forall k :: k in queue' <==> k in queue || k in ns)
    && (forall k :: k in queue ==> queue'[k] == queue[k])
    && (forall k :: k in queue' && k !in queue ==> k in costs && queue'[k] == costs[k] + heuristic(target, k))
  }

  /** The `foreach` over the unvisited neighbours `ns` of `current`, which
      was dequeued at priority `cost`: each gets a cost, is enqueued and
      records `current` as its predecessor.  Neither the cheaper-cost update
      nor the skip of an already queued entry is ever taken, because no
      unvisited cell has a cost or a queue entry. */
  method Relax(g: Grid, heuristic: (Position, Position) -> int, target: Position, current: Position, cost: int,
               ns: seq<Position>, queue: map<Position, int>, pred: map<Position, Position>, costs: map<Position, int>)
    returns (queue': map<Position, int>, pred': map<Position, Position>, costs': map<Position, int>)
    requires Distinct(ns)
    requires forall n :: n in ns ==> n !in costs && n !in queue && n in g.weight
    ensures Costed(g, costs', costs, ns, cost)
    ensures Enqueued(queue', queue, ns, costs', heuristic, target)
    ensures Extends(pred', pred, ns, current)
  {
    queue', pred', costs' := queue, pred, costs;
    for k := 0 to |ns|
      invariant Costed(g, costs', costs, ns[..k], cost)
      invariant Enqueued(queue', queue, ns[..k], costs', heuristic, target)
      invariant Extends(pred', pred, ns[..k], current)
    {
      var n := ns[k];
      RelaxFresh(g, heuristic, target, cost, ns, k, queue, costs, queue', costs');
      ghost var queue0, pred0, costs0 := queue', pred', costs';
      queue', pred', costs' := RelaxCell(g, heuristic, target, current, cost, n, queue', pred', costs');
      RelaxOne(g, heuristic, target, current, cost, ns[..k], n, queue, pred, costs,
               queue0, pred0, costs0, queue', pred', costs');
    }
    assert ns[..|ns|] == ns;
  }

  /** The body of the `foreach` in `Relax` for one cell `n` that has
      neither a cost nor a queue entry. */
  method RelaxCell(g: Grid, heuristic: (Position, Position) -> int, target: Position, current: Position, cost: int,
                   n: Position, queue: map<Position, int>, pred: map<Position, Position>, costs: map<Position, int>)
    returns (queue': map<Position, int>, pred': map<Position, Position>, costs': map<Position, int>)
    requires n !in costs && n !in queue && n in g.weight
    ensures costs' == costs[n := cost + g.weight[n]]
    ensures queue' == queue[n := costs'[n] + heuristic(target, n)]
    ensures pred' == if n in pred then pred else pred[n := current]
  {
    queue', pred', costs' := queue, pred, costs;
    var w := g.weight[n];
    if Improves(TryGetValue(costs', n), cost + w) {
      costs' := costs'[n := cost + w];
    } else {
      assert n !in costs';  // `costs.Add` does not throw
      costs' := costs'[n := w + cost];
    }
    if !Contains(queue', n, costs'[n]) {
      assert n !in queue';  // the queue never holds a cell twice
      queue' := queue'[n := costs'[n] + heuristic(target, n)];
      if n !in pred' {
        pred' := pred'[n := current];
      }
    }
  }

  /** The next cell of the `foreach` has neither a cost nor a queue entry yet. */
  lemma RelaxFresh(g: Grid, heuristic: (Position, Position) -> int, target: Position, cost: int,
                   ns: seq<Position>, k: nat, queue: map<Position, int>, costs: map<Position, int>,
                   queue0: map<Position, int>, costs0: map<Position, int>)
    requires Distinct(ns) && k < |ns|
    requires ns[k] !in costs && ns[k] !in queue
    requires Costed(g, costs0, costs, ns[..k], cost)
    requires Enqueued(queue0, queue, ns[..k], costs0, heuristic, target)
    ensures ns[k] !in costs0 && ns[k] !in queue0
    ensures ns[..k + 1] == ns[..k] + [ns[k]]
  {
    assert ns[k] !in ns[..k] by {
      forall i | 0 <= i < k ensures ns[..k][i] != ns[k] {
        assert ns[..k][i] == ns[i];
      }
    }
  }

  /** One pass of the `foreach` in `Relax`, for a cell with no cost and no
      queue entry yet. */
  lemma RelaxOne(g: Grid, heuristic: (Position, Position) -> int, target: Position, current: Position, cost: int,
                 done: seq<Position>, n: Position,
                 queue: map<Position, int>, pred: map<Position, Position>, costs: map<Position, int>,
                 queue0: map<Position, int>, pred0: map<Position, Position>, costs0: map<Position, int>,
                 queue1: map<Position, int>, pred1: map<Position, Position>, costs1: map<Position, int>)
    requires Costed(g, costs0, costs, done, cost)
    requires Enqueued(queue0, queue, done, costs0, heuristic, target)
    requires Extends(pred0, pred, done, current)
    requires n !in costs0 && n !in queue0 && n in g.weight
    requires costs1 == costs0[n := cost + g.weight[n]]
    requires queue1 == queue0[n := costs1[n] + heuristic(target, n)]
    requires pred1 == if n in pred0 then pred0 else pred0[n := current]
    ensures Costed(g, costs1, costs, done + [n], cost)
    ensures Enqueued(queue1, queue, done + [n], costs1, heuristic, target)
    ensures Extends(pred1, pred, done + [n], current)
  {
    CostedOne(g, cost, done, n, costs, costs0, costs1);
    EnqueuedOne(heuristic, target, done, n, queue, queue0, costs0, costs1, queue1);
    ExtendsOne(pred, pred0, done, n, current, pred1);
  }

  lemma CostedOne(g: Grid, cost: int, done: seq<Position>, n: Position,
                  costs: map<Position, int>, costs0: map<Position, int>, costs1: map<Position, int>)
    requires Costed(g, costs0, costs, done, cost)
    requires n !in costs0 && n in g.weight
    requires costs1 == costs0[n := cost + g.weight[n]]
    ensures Costed(g, costs1, costs, done + [n], cost)
  {
  }

  lemma EnqueuedOne(heuristic: (Position, Position) -> int, target: Position, done: seq<Position>, n: Position,
                    queue: map<Position, int>, queue0: map<Position, int>,
                    costs0: map<Position, int>, costs1: map<Position, int>, queue1: map<Position, int>)
    requires Enqueued(queue0, queue, done, costs0, heuristic, target)
    requires n !in queue0 && n in costs1
    requires forall k :: k in costs0 ==> k in costs1 && costs1[k] == costs0[k]
    requires queue1 == queue0[n := costs1[n] + heuristic(target, n)]
    ensures Enqueued(queue1, queue, done + [n], costs1, heuristic, target)
  {
  }

  lemma ExtendsOne<V>(m: map<Position, V>, m0: map<Position, V>, done: seq<Position>, n: Position, v: V,
                      m1: map<Position, V>)
    requires Extends(m0, m, done, v)
    requires m1 == if n in m0 then m0 else m0[n := v]
    ensures Extends(m1, m, done + [n], v)
  {
  }

  /** Bookkeeping: the visited cells are the expanded and the queued ones,
      which are disjoint, and all of them have a cost and a hop count. */
  ghost predicate UcsShape(g: Grid, start: Position, target: Position, queue: map<Position, int>,
                           pred: map<Position, Position>, costs: map<Position, int>, hops: map<Position, nat>,
                           expanded: set<Position>)
  {
    && start in costs && costs[start] == 0 && start in hops && hops[start] == 0
    && pred.Keys == costs.Keys && hops.Keys == costs.Keys
    && (forall p :: p in pred <==> p in expanded || p in queue)
    && (forall p :: p in queue ==> p !in expanded)
    && pred.Keys <= g.weight.Keys
    && target !in expanded
  }

  /** Every visited cell other than the start was reached by a step from
      its predecessor, an expanded cell one hop nearer the start, and costs
      the predecessor's priority plus its own weight. */
  ghost predicate UcsTree(g: Grid, constraint: Position -> bool, heuristic: (Position, Position) -> int,
                          start: Position, target: Position, pred: map<Position, Position>,
                          costs: map<Position, int>, hops: map<Position, nat>, expanded: set<Position>)
  {
    forall k {:trigger pred[k]} :: k in pred && k != start ==>
      && pred[k] in expanded && pred[k] in pred && k in costs && pred[k] in costs && k in hops && pred[k] in hops
      && Step(g, constraint, pred[k], k) && hops[k] == hops[pred[k]] + 1
      && costs[k] == Priority(costs, heuristic, start, target, pred[k]) + Weight(g, k)
  }

  /** Every queued cell is queued at its priority. */
  ghost predicate UcsQueued(heuristic: (Position, Position) -> int, start: Position, target: Position,
                            queue: map<Position, int>, costs: map<Position, int>)
  {
    forall p :: p in queue ==> p in costs && queue[p] == Priority(costs, heuristic, start, target, p)
  }

  /** Every step out of an expanded cell leads to a visited cell. */
  ghost predicate UcsClosed(g: Grid, constraint: Position -> bool, pred: map<Position, Position>, expanded: set<Position>)
  {
    forall e, n :: e in expanded && Step(g, constraint, e, n) ==> n in pred
  }

  /** Dijkstra's invariant, for a zero heuristic: costs are not negative, no
      expanded cell costs more than any queued priority, and a step out of
      an expanded cell costs no less than the cell it leads to. */
  ghost predicate UcsCheapest(g: Grid, constraint: Position -> bool, queue: map<Position, int>,
                              costs: map<Position, int>, expanded: set<Position>)
  {
    && (forall k :: k in costs ==> costs[k] >= 0)
    && (forall e, p :: e in expanded && p in queue ==> e in costs && costs[e] <= queue[p])
    && (forall e, n :: e in expanded && Step(g, constraint, e, n) ==>
          e in costs && n in costs && costs[n] <= costs[e] + Weight(g, n))
  }

  /** The invariant of the search loop. */
  ghost predicate UcsInv(g: Grid, constraint: Position -> bool, heuristic: (Position, Position) -> int,
                         start: Position, target: Position, queue: map<Position, int>, pred: map<Position, Position>,
                         costs: map<Position, int>, hops: map<Position, nat>, expanded: set<Position>)
  {
    && UcsShape(g, start, target, queue, pred, costs, hops, expanded)
    && UcsTree(g, constraint, heuristic, start, target, pred, costs, hops, expanded)
    && UcsQueued(heuristic, start, target, queue, costs)
    && UcsClosed(g, constraint, pred, expanded)
    && (ZeroHeuristic(heuristic) ==> UcsCheapest(g, constraint, queue, costs, expanded))
  }

  /** `UniformCostSearch`: the path runs from the final `current` back to
      the start; `found` records that the loop ended at the target.  The
      target is missed only when no route reaches it, and with a zero
      heuristic a found path is a cheapest route. */
  method UniformCostSearch(start: Position, target: Position, g: Grid, constraint: Position -> bool,
                           heuristic: (Position, Position) -> int)
    returns (path: seq<Position>, found: bool, ghost dequeued: seq<Position>)
    requires ValidGrid(g) && start in g.weight
    ensures |path| >= 1 && path[|path| - 1] == start
    ensures forall i :: 0 <= i < |path| - 1 ==> path[i] != start
    ensures start == target ==> path == [start]
    ensures forall i :: 0 <= i < |path| - 1 ==> Step(g, constraint, path[i + 1], path[i])
    ensures found <==> path[0] == target
    ensures found <==> Reachable(g, constraint, start, target)
    ensures found && ZeroHeuristic(heuristic) ==>
              forall w :: IsWalk(g, constraint, w) && w[0] == start && w[|w| - 1] == target ==>
                Cost(g, path[..|path| - 1]) <= Cost(g, w[1..])
    ensures |dequeued| >= 1 && dequeued[0] == start && Distinct(dequeued)
    ensures path[0] == dequeued[|dequeued| - 1]
    ensures forall i :: 0 <= i < |dequeued| - 1 ==> dequeued[i] != target
    ensures !found ==> forall p :: p in dequeued <==> Reachable(g, constraint, start, p)
  {
    var pred, current, costs;
    ghost var hops, expanded;
    pred, current, found, costs, hops, expanded, dequeued := UcsExplore(start, target, g, constraint, heuristic);
    UcsRanked(g, constraint, heuristic, start, target, pred, costs, hops, expanded, current, found);
    path := Reconstruct(pred, start, current, hops);
    UcsConclusion(g, constraint, heuristic, start, target, pred, costs, hops, expanded, current, found, path);
    if !found {
      Exhausted(g, constraint, start, pred, hops, expanded);
    }
  }

  /** The state in which the search loop of `UniformCostSearch` ends: it
      stopped at the target, or it expanded every cell it visited. */
  ghost predicate UcsExit(g: Grid, constraint: Position -> bool, heuristic: (Position, Position) -> int,
                          start: Position, target: Position, pred: map<Position, Position>,
                          costs: map<Position, int>, hops: map<Position, nat>, expanded: set<Position>,
                          current: Position, found: bool)
  {
    && start in g.weight && start in costs && costs[start] == 0 && start in hops && hops[start] == 0
    && pred.Keys == costs.Keys && hops.Keys == costs.Keys
    && UcsTree(g, constraint, heuristic, start, target, pred, costs, hops, expanded)
    && UcsClosed(g, constraint, pred, expanded)
    && current in pred && target !in expanded
    && (found ==> current == target)
    && (found && ZeroHeuristic(heuristic) ==>
          forall w :: IsWalk(g, constraint, w) && w[0] == start && w[|w| - 1] == target ==>
            costs[target] <= Cost(g, w[1..]))
    && (!found ==> current in expanded && forall p :: p in pred <==> p in expanded)
  }

  /** The search loop of `UniformCostSearch`: dequeue a cell of least
      priority, stop if it is the target, otherwise cost, enqueue and record
      its unvisited neighbours. */
  method UcsExplore(start: Position, target: Position, g: Grid, constraint: Position -> bool,
                    heuristic: (Position, Position) -> int)
    returns (pred: map<Position, Position>, current: Position, found: bool,
             costs: map<Position, int>, ghost hops: map<Position, nat>, ghost expanded: set<Position>,
             ghost dequeued: seq<Position>)
    requires ValidGrid(g) && start in g.weight
    ensures UcsExit(g, constraint, heuristic, start, target, pred, costs, hops, expanded, current, found)
    ensures DequeueOrder(start, dequeued, expanded, current, found)
  {
    var queue: map<Position, int> := map[start := 0];
    pred := map[start := start];
    costs := map[start := 0];
    hops := map[start := 0];
    expanded := {};
    dequeued := [];
    current := start;
    found := false;
    while queue != map[]
      invariant UcsInv(g, constraint, heuristic, start, target, queue, pred, costs, hops, expanded)
      invariant current in pred && (current in expanded || expanded == {})
      invariant !found
      invariant Dequeuing(start, dequeued, expanded, current)
      invariant dequeued == [] ==> queue == map[start := 0]
      decreases |g.weight.Keys - expanded|
    {
      var stop;
      queue, pred, costs, hops, expanded, dequeued, current, stop :=
        UcsTurn(g, constraint, heuristic, start, target, queue, pred, costs, hops, expanded, dequeued, current);
      if stop {
        found := true;
        return;
      }
    }
    UcsEmptied(g, constraint, heuristic, start, target, pred, costs, hops, expanded, current);
    DequeueDone(start, dequeued, expanded, current);
  }

  /** One turn of the search loop of `UniformCostSearch`: dequeue a cell of
      least priority; stop if it is the target, otherwise expand it. */
  method UcsTurn(g: Grid, constraint: Position -> bool, heuristic: (Position, Position) -> int,
                 start: Position, target: Position, queue: map<Position, int>, pred: map<Position, Position>,
                 costs: map<Position, int>, ghost hops: map<Position, nat>, ghost expanded: set<Position>,
                 ghost dequeued: seq<Position>, current: Position)
    returns (queue': map<Position, int>, pred': map<Position, Position>, costs': map<Position, int>,
             ghost hops': map<Position, nat>, ghost expanded': set<Position>, ghost dequeued': seq<Position>,
             current': Position, stop: bool)
    requires ValidGrid(g) && queue != map[]
    requires UcsInv(g, constraint, heuristic, start, target, queue, pred, costs, hops, expanded)
    requires current in pred && (current in expanded || expanded == {})
    requires Dequeuing(start, dequeued, expanded, current)
    requires dequeued == [] ==> queue == map[start := 0]
    ensures stop ==> UcsExit(g, constraint, heuristic, start, target, pred', costs', hops', expanded', current', true)
    ensures stop ==> DequeueOrder(start, dequeued', expanded', current', true)
    ensures !stop ==> UcsInv(g, constraint, heuristic, start, target, queue', pred', costs', hops', expanded')
    ensures !stop ==> current' in pred' && current' in expanded'
    ensures !stop ==> Dequeuing(start, dequeued', expanded', current') && dequeued' != []
    ensures !stop ==> |g.weight.Keys - expanded'| < |g.weight.Keys - expanded|
  {
    ghost var least := LeastPriority(queue);
    var next :| next in queue && forall p :: p in queue ==> queue[next] <= queue[p];
    DequeueNext(start, dequeued, expanded, current, next);
    current' := next;
    dequeued' := dequeued + [next];
    if next == target {
      stop := true;
      queue', pred', costs', hops', expanded' := queue, pred, costs, hops, expanded;
      UcsStopped(g, constraint, heuristic, start, target, queue, pred, costs, hops, expanded);
      return;
    }
    stop := false;
    queue', pred', costs', hops' := UcsExpand(g, constraint, heuristic, start, target, queue, pred, costs, hops,
                                              expanded, next);
    expanded' := expanded + {next};
  }

  /** The search loop of `UniformCostSearch` stopped at the target: its state
      meets the loop's exit condition. */
  lemma UcsStopped(g: Grid, constraint: Position -> bool, heuristic: (Position, Position) -> int,
                   start: Position, target: Position, queue: map<Position, int>, pred: map<Position, Position>,
                   costs: map<Position, int>, hops: map<Position, nat>, expanded: set<Position>)
    requires UcsInv(g, constraint, heuristic, start, target, queue, pred, costs, hops, expanded)
    requires target in queue && forall p :: p in queue ==> queue[target] <= queue[p]
    ensures UcsExit(g, constraint, heuristic, start, target, pred, costs, hops, expanded, target, true)
  {
    UcsFound(g, constraint, heuristic, start, target, queue, pred, costs, hops, expanded);
  }

  /** The search loop of `UniformCostSearch` ran out of queued cells: every
      visited cell was expanded, and the state meets the loop's exit condition. */
  lemma UcsEmptied(g: Grid, constraint: Position -> bool, heuristic: (Position, Position) -> int,
                   start: Position, target: Position, pred: map<Position, Position>,
                   costs: map<Position, int>, hops: map<Position, nat>, expanded: set<Position>, current: Position)
    requires UcsInv(g, constraint, heuristic, start, target, map[], pred, costs, hops, expanded)
    requires current in pred && (current in expanded || expanded == {})
    ensures current in expanded
    ensures UcsExit(g, constraint, heuristic, start, target, pred, costs, hops, expanded, current, false)
  {
  }

  /** One turn of the search loop of `UniformCostSearch` for a dequeued cell
      of least priority that is not the target: cost, enqueue and record its
      unvisited neighbours, keeping the loop invariant and expanding a new cell. */
  method UcsExpand(g: Grid, constraint: Position -> bool, heuristic: (Position, Position) -> int,
                   start: Position, target: Position, queue: map<Position, int>, pred: map<Position, Position>,
                   costs: map<Position, int>, ghost hops: map<Position, nat>, ghost expanded: set<Position>,
                   current: Position)
    returns (queue': map<Position, int>, pred': map<Position, Position>, costs': map<Position, int>,
             ghost hops': map<Position, nat>)
    requires ValidGrid(g)
    requires UcsInv(g, constraint, heuristic, start, target, queue, pred, costs, hops, expanded)
    requires current in queue && current != target
    requires forall p :: p in queue ==> queue[current] <= queue[p]
    ensures UcsInv(g, constraint, heuristic, start, target, queue', pred', costs', hops', expanded + {current})
    ensures current in pred'
    ensures |g.weight.Keys - (expanded + {current})| < |g.weight.Keys - expanded|
  {
    var rest := queue - {current};
    var neighbors := Unseen(g.neighbors(current), [], pred.Keys, constraint);
    UcsFresh(g, constraint, heuristic, start, target, queue, pred, costs, hops, expanded, current, neighbors);
    queue', pred', costs' := Relax(g, heuristic, target, current, queue[current], neighbors, rest, pred, costs);
    hops' := Discover(hops, neighbors, hops[current] + 1);
    UcsStep(g, constraint, heuristic, start, target, queue, pred, costs, hops, expanded, current,
            neighbors, queue', pred', costs', hops');
  }

  /** A non-empty priority queue has an entry of least priority. */
  lemma LeastPriority(queue: map<Position, int>) returns (least: Position)
    requires queue != map[]
    ensures least in queue && forall p :: p in queue ==> queue[least] <= queue[p]
    decreases |queue|
  {
    var x :| x in queue;
    var others := queue - {x};
    if others == map[] {
      least := x;
    } else {
      assert |others| < |queue| by {
        assert others.Keys + {x} == queue.Keys;
      }
      var m := LeastPriority(others);
      least := if queue[x] <= queue[m] then x else m;
    }
    forall p | p in queue ensures queue[least] <= queue[p] {
      if p != x {
        assert p in others;
      }
    }
  }

  /** The unvisited neighbours of the dequeued cell are grid cells with no
      cost and no queue entry yet, each listed once. */
  lemma UcsFresh(g: Grid, constraint: Position -> bool, heuristic: (Position, Position) -> int,
                 start: Position, target: Position, queue: map<Position, int>, pred: map<Position, Position>,
                 costs: map<Position, int>, hops: map<Position, nat>, expanded: set<Position>,
                 current: Position, ns: seq<Position>)
    requires ValidGrid(g)
    requires UcsShape(g, start, target, queue, pred, costs, hops, expanded)
    requires current in queue
    requires ns == Unseen(g.neighbors(current), [], pred.Keys, constraint)
    ensures Distinct(ns)
    ensures forall n :: n in ns ==> n !in costs && n !in queue - {current} && n in g.weight
  {
    forall n | n in ns ensures n !in costs && n !in queue - {current} && n in g.weight {
      var i :| 0 <= i < |g.neighbors(current)| && g.neighbors(current)[i] == n;
    }
  }

  /** One iteration of the search loop that does not dequeue the target
      keeps the invariant and expands one more cell. */
  lemma UcsStep(g: Grid, constraint: Position -> bool, heuristic: (Position, Position) -> int,
                start: Position, target: Position, queue: map<Position, int>, pred: map<Position, Position>,
                costs: map<Position, int>, hops: map<Position, nat>, expanded: set<Position>, current: Position,
                ns: seq<Position>, queue': map<Position, int>, pred': map<Position, Position>,
                costs': map<Position, int>, hops': map<Position, nat>)
    requires ValidGrid(g)
    requires UcsInv(g, constraint, heuristic, start, target, queue, pred, costs, hops, expanded)
    requires current in queue && current != target
    requires forall p :: p in queue ==> queue[current] <= queue[p]
    requires ns == Unseen(g.neighbors(current), [], pred.Keys, constraint)
    requires Costed(g, costs', costs, ns, queue[current])
    requires Enqueued(queue', queue - {current}, ns, costs', heuristic, target)
    requires Extends(pred', pred, ns, current)
    requires current in hops && Extends(hops', hops, ns, hops[current] + 1)
    ensures UcsInv(g, constraint, heuristic, start, target, queue', pred', costs', hops', expanded + {current})
    ensures current in pred'
    ensures |g.weight.Keys - (expanded + {current})| < |g.weight.Keys - expanded|
  {
    UcsFresh(g, constraint, heuristic, start, target, queue, pred, costs, hops, expanded, current, ns);
    UcsStepShape(g, constraint, start, target, queue, pred, costs, hops, expanded, current, ns, queue', pred', costs', hops');
    UcsStepTree(g, constraint, heuristic, start, target, queue, pred, costs, hops, expanded, current, ns, pred', costs', hops');
    UcsStepQueued(heuristic, start, target, queue, pred, costs, current, ns, queue', costs');
    UcsStepClosed(g, constraint, pred, expanded, current, ns, pred');
    if ZeroHeuristic(heuristic) {
      UcsStepCheapest(g, constraint, heuristic, start, target, queue, pred, costs, hops, expanded, current, ns, queue', costs');
    }
  }

  lemma UcsStepShape(g: Grid, constraint: Position -> bool, start: Position, target: Position,
                     queue: map<Position, int>, pred: map<Position, Position>, costs: map<Position, int>,
                     hops: map<Position, nat>, expanded: set<Position>, current: Position, ns: seq<Position>,
                     queue': map<Position, int>, pred': map<Position, Position>, costs': map<Position, int>,
                     hops': map<Position, nat>)
    requires UcsShape(g, start, target, queue, pred, costs, hops, expanded)
    requires current in queue && current != target
    requires forall n :: n in ns ==> n !in costs && n in g.weight
    requires forall k :: k in costs' <==> k in costs || k in ns
    requires forall k :: k in costs ==> costs'[k] == costs[k]
    requires forall k :: k in queue' <==> k in queue - {current} || k in ns
    requires forall k :: k in pred' <==> k in pred || k in ns
    requires forall k :: k in hops' <==> k in hops || k in ns
    requires forall k :: k in hops ==> hops'[k] == hops[k]
    ensures UcsShape(g, start, target, queue', pred', costs', hops', expanded + {current})
    ensures |g.weight.Keys - (expanded + {current})| < |g.weight.Keys - expanded|
  {
    UcsKeys(queue, pred, costs, hops, expanded, current, ns, queue', pred', costs', hops');
    ExpandOne(g.weight.Keys, expanded, current);
  }

  /** Moving the dequeued cell to the expanded cells and visiting its
      unvisited neighbours keeps "visited = expanded or queued". */
  lemma UcsKeys(queue: map<Position, int>, pred: map<Position, Position>, costs: map<Position, int>,
                hops: map<Position, nat>, expanded: set<Position>, current: Position, ns: seq<Position>,
                queue': map<Position, int>, pred': map<Position, Position>, costs': map<Position, int>,
                hops': map<Position, nat>)
    requires pred.Keys == costs.Keys && hops.Keys == costs.Keys
    requires forall p :: p in pred <==> p in expanded || p in queue
    requires forall p :: p in queue ==> p !in expanded
    requires current in queue
    requires forall n :: n in ns ==> n !in costs
    requires forall k :: k in costs' <==> k in costs || k in ns
    requires forall k :: k in queue' <==> k in queue - {current} || k in ns
    requires forall k :: k in pred' <==> k in pred || k in ns
    requires forall k :: k in hops' <==> k in hops || k in ns
    ensures pred'.Keys == costs'.Keys && hops'.Keys == costs'.Keys
    ensures forall p :: p in pred' <==> p in expanded + {current} || p in queue'
    ensures forall p :: p in queue' ==> p !in expanded + {current}
  {
    assert pred'.Keys == costs'.Keys;
    assert hops'.Keys == costs'.Keys;
    forall p ensures p in pred' <==> p in expanded + {current} || p in queue' {
      assert p in queue - {current} <==> p in queue && p != current;
    }
  }

  lemma UcsStepTree(g: Grid, constraint: Position -> bool, heuristic: (Position, Position) -> int,
                    start: Position, target: Position, queue: map<Position, int>, pred: map<Position, Position>,
                    costs: map<Position, int>, hops: map<Position, nat>, expanded: set<Position>, current: Position,
                    ns: seq<Position>, pred': map<Position, Position>, costs': map<Position, int>, hops': map<Position, nat>)
    requires UcsShape(g, start, target, queue, pred, costs, hops, expanded)
    requires UcsTree(g, constraint, heuristic, start, target, pred, costs, hops, expanded)
    requires UcsQueued(heuristic, start, target, queue, costs)
    requires current in queue
    requires ns == Unseen(g.neighbors(current), [], pred.Keys, constraint)
    requires Costed(g, costs', costs, ns, queue[current])
    requires Extends(pred', pred, ns, current)
    requires current in hops && Extends(hops', hops, ns, hops[current] + 1)
    ensures UcsTree(g, constraint, heuristic, start, target, pred', costs', hops', expanded + {current})
  {
    assert Priority(costs', heuristic, start, target, current) == queue[current];
    forall k | k in pred' && k != start
      ensures pred'[k] in expanded + {current} && pred'[k] in pred' && k in costs' && pred'[k] in costs'
      ensures k in hops' && pred'[k] in hops' && Step(g, constraint, pred'[k], k) && hops'[k] == hops'[pred'[k]] + 1
      ensures costs'[k] == Priority(costs', heuristic, start, target, pred'[k]) + Weight(g, k)
    {
      if k in pred {
        assert pred'[k] == pred[k];
        assert Priority(costs', heuristic, start, target, pred[k]) == Priority(costs, heuristic, start, target, pred[k]);
      } else {
        assert k in ns && k !in costs && k !in hops;
      }
    }
  }

  lemma UcsStepQueued(heuristic: (Position, Position) -> int, start: Position, target: Position,
                      queue: map<Position, int>, pred: map<Position, Position>, costs: map<Position, int>,
                      current: Position, ns: seq<Position>, queue': map<Position, int>, costs': map<Position, int>)
    requires UcsQueued(heuristic, start, target, queue, costs)
    requires start in pred && pred.Keys == costs.Keys
    requires forall n :: n in ns ==> n !in pred
    requires forall k :: k in costs' <==> k in costs || k in ns
    requires forall k :: k in costs ==> costs'[k] == costs[k]
    requires Enqueued(queue', queue - {current}, ns, costs', heuristic, target)
    ensures UcsQueued(heuristic, start, target, queue', costs')
  {
    forall p | p in queue' ensures p in costs' && queue'[p] == Priority(costs', heuristic, start, target, p) {
      if p in queue - {current} {
        assert queue'[p] == queue[p];
      } else {
        assert p in ns && p != start;
      }
    }
  }

  lemma UcsStepClosed(g: Grid, constraint: Position -> bool, pred: map<Position, Position>, expanded: set<Position>,
                      current: Position, ns: seq<Position>, pred': map<Position, Position>)
    requires UcsClosed(g, constraint, pred, expanded)
    requires ns == Unseen(g.neighbors(current), [], pred.Keys, constraint)
    requires forall k :: k in pred' <==> k in pred || k in ns
    ensures UcsClosed(g, constraint, pred', expanded + {current})
  {
  }

  lemma UcsStepCheapest(g: Grid, constraint: Position -> bool, heuristic: (Position, Position) -> int,
                        start: Position, target: Position, queue: map<Position, int>, pred: map<Position, Position>,
                        costs: map<Position, int>, hops: map<Position, nat>, expanded: set<Position>,
                        current: Position, ns: seq<Position>, queue': map<Position, int>, costs': map<Position, int>)
    requires ZeroHeuristic(heuristic)
    requires UcsShape(g, start, target, queue, pred, costs, hops, expanded)
    requires UcsTree(g, constraint, heuristic, start, target, pred, costs, hops, expanded)
    requires UcsQueued(heuristic, start, target, queue, costs)
    requires UcsCheapest(g, constraint, queue, costs, expanded)
    requires current in queue && forall p :: p in queue ==> queue[current] <= queue[p]
    requires ns == Unseen(g.neighbors(current), [], pred.Keys, constraint)
    requires Costed(g, costs', costs, ns, queue[current])
    requires Enqueued(queue', queue - {current}, ns, costs', heuristic, target)
    ensures UcsCheapest(g, constraint, queue', costs', expanded + {current})
  {
    assert queue[current] == costs[current];
    CheapestCosts(costs, ns, queue[current], g, costs');
    CheapestOrder(g, heuristic, target, queue, costs, expanded, current, ns, queue', costs');
    CheapestClosed(g, constraint, heuristic, start, target, queue, pred, costs, hops, expanded, current, ns, costs');
  }

  /** Costs stay non-negative: a new cost adds a weight to a dequeued
      priority that is itself a cost. */
  lemma CheapestCosts(costs: map<Position, int>, ns: seq<Position>, cost: int, g: Grid, costs': map<Position, int>)
    requires forall k :: k in costs ==> costs[k] >= 0
    requires cost >= 0
    requires Costed(g, costs', costs, ns, cost)
    ensures forall k :: k in costs' ==> costs'[k] >= 0
  {
  }

  /** No expanded cell costs more than a queued priority: the dequeued cell
      had the least priority, and new entries add a weight to it. */
  lemma CheapestOrder(g: Grid, heuristic: (Position, Position) -> int, target: Position,
                      queue: map<Position, int>, costs: map<Position, int>, expanded: set<Position>,
                      current: Position, ns: seq<Position>, queue': map<Position, int>, costs': map<Position, int>)
    requires ZeroHeuristic(heuristic)
    requires forall e, p :: e in expanded && p in queue ==> e in costs && costs[e] <= queue[p]
    requires current in queue && current in costs && queue[current] == costs[current]
    requires forall p :: p in queue ==> queue[current] <= queue[p]
    requires forall n :: n in ns ==> n !in costs
    requires Costed(g, costs', costs, ns, queue[current])
    requires Enqueued(queue', queue - {current}, ns, costs', heuristic, target)
    ensures forall e, p :: e in expanded + {current} && p in queue' ==> e in costs' && costs'[e] <= queue'[p]
  {
    forall e, p | e in expanded + {current} && p in queue' ensures e in costs' && costs'[e] <= queue'[p] {
      if p !in queue - {current} {
        assert queue'[p] == queue[current] + Weight(g, p) + heuristic(target, p);
      }
    }
  }

  /** A step out of the dequeued cell costs no less than the cell it leads
      to: a new cell is costed through it, and an older one through an
      expanded cell that costs no more than it. */
  lemma CheapestClosed(g: Grid, constraint: Position -> bool, heuristic: (Position, Position) -> int,
                       start: Position, target: Position, queue: map<Position, int>, pred: map<Position, Position>,
                       costs: map<Position, int>, hops: map<Position, nat>, expanded: set<Position>,
                       current: Position, ns: seq<Position>, costs': map<Position, int>)
    requires ZeroHeuristic(heuristic)
    requires start in costs && costs[start] == 0 && pred.Keys == costs.Keys
    requires UcsTree(g, constraint, heuristic, start, target, pred, costs, hops, expanded)
    requires UcsCheapest(g, constraint, queue, costs, expanded)
    requires current in queue && current in costs && queue[current] == costs[current]
    requires ns == Unseen(g.neighbors(current), [], pred.Keys, constraint)
    requires Costed(g, costs', costs, ns, queue[current])
    ensures forall e, n :: e in expanded + {current} && Step(g, constraint, e, n) ==>
              e in costs' && n in costs' && costs'[n] <= costs'[e] + Weight(g, n)
  {
    forall e, n | e in expanded + {current} && Step(g, constraint, e, n)
      ensures e in costs' && n in costs' && costs'[n] <= costs'[e] + Weight(g, n)
    {
      if e == current && n in pred && n != start {
        assert pred[n] in expanded;
        assert costs[pred[n]] <= queue[current];
      }
    }
  }

  /** When the target has the least priority in the queue, its cost is, for
      a zero heuristic, no more than that of any route to it. */
  lemma UcsFound(g: Grid, constraint: Position -> bool, heuristic: (Position, Position) -> int,
                 start: Position, target: Position, queue: map<Position, int>, pred: map<Position, Position>,
                 costs: map<Position, int>, hops: map<Position, nat>, expanded: set<Position>)
    requires UcsInv(g, constraint, heuristic, start, target, queue, pred, costs, hops, expanded)
    requires target in queue && forall p :: p in queue ==> queue[target] <= queue[p]
    ensures target in costs
    ensures ZeroHeuristic(heuristic) ==>
              forall w :: IsWalk(g, constraint, w) && w[0] == start && w[|w| - 1] == target ==>
                costs[target] <= Cost(g, w[1..])
  {
    if ZeroHeuristic(heuristic) {
      forall w | IsWalk(g, constraint, w) && w[0] == start && w[|w| - 1] == target
        ensures costs[target] <= Cost(g, w[1..])
      {
        CostFrontier(g, constraint, heuristic, start, target, queue, pred, costs, expanded, w);
      }
    }
  }

  /** For a zero heuristic, a route to the cell of least priority passes a
      queued cell whose cost bounds the route's cost from below, and which
      costs no less than the cell of least priority. */
  lemma CostFrontier(g: Grid, constraint: Position -> bool, heuristic: (Position, Position) -> int,
                     start: Position, target: Position, queue: map<Position, int>, pred: map<Position, Position>,
                     costs: map<Position, int>, expanded: set<Position>, w: seq<Position>)
    requires ZeroHeuristic(heuristic)
    requires start in costs && costs[start] == 0 && pred.Keys == costs.Keys
    requires forall p :: p in pred <==> p in expanded || p in queue
    requires UcsQueued(heuristic, start, target, queue, costs)
    requires UcsCheapest(g, constraint, queue, costs, expanded)
    requires target in queue && target !in expanded && forall p :: p in queue ==> queue[target] <= queue[p]
    requires IsWalk(g, constraint, w) && w[0] == start && w[|w| - 1] == target
    ensures costs[target] <= Cost(g, w[1..])
  {
    var j := FirstOutside(w, expanded);
    CostInside(g, constraint, start, costs, expanded, w, j);
    assert w[j] in pred && w[j] in queue;
    assert queue[target] <= queue[w[j]];
    assert Priority(costs, heuristic, start, target, w[j]) == costs[w[j]];
    assert Priority(costs, heuristic, start, target, target) == costs[target];
    assert w[1..] == w[1..j + 1] + w[j + 1..];
    CostConcat(g, w[1..j + 1], w[j + 1..]);
  }

  /** Along a route from the start whose first `j` cells are expanded, cell
      `j` costs no more than the route up to it. */
  lemma {:induction false} CostInside(g: Grid, constraint: Position -> bool, start: Position,
                                      costs: map<Position, int>, expanded: set<Position>, w: seq<Position>, j: nat)
    requires forall e, n :: e in expanded && Step(g, constraint, e, n) ==>
               e in costs && n in costs && costs[n] <= costs[e] + Weight(g, n)
    requires start in costs && costs[start] == 0
    requires IsWalk(g, constraint, w) && w[0] == start && j < |w|
    requires forall i :: 0 <= i < j ==> w[i] in expanded
    ensures w[j] in costs && costs[w[j]] <= Cost(g, w[1..j + 1])
    decreases j
  {
    if j > 0 {
      CostInside(g, constraint, start, costs, expanded, w, j - 1);
      assert Step(g, constraint, w[j - 1], w[j]);
      assert w[1..j + 1][..j - 1] == w[1..j];
    }
  }

  /** The cost of a concatenation is the sum of the costs. */
  lemma {:induction false} CostConcat(g: Grid, a: seq<Position>, b: seq<Position>)
    ensures Cost(g, a + b) == Cost(g, a) + Cost(g, b)
    decreases |b|
  {
    if b == [] {
      assert a + b == a;
    } else {
      CostConcat(g, a, b[..|b| - 1]);
      assert (a + b)[..|a + b| - 1] == a + b[..|b| - 1];
    }
  }

  /** Along a reconstructed path the cost drops by the weight of each cell
      left behind, so the first cell costs the weights of all but the start. */
  lemma {:induction false} ChainCost(g: Grid, start: Position, costs: map<Position, int>, path: seq<Position>)
    requires |path| >= 1 && path[|path| - 1] == start && start in costs && costs[start] == 0
    requires forall i :: 0 <= i < |path| ==> path[i] in costs
    requires forall i :: 0 <= i < |path| - 1 ==> costs[path[i]] == costs[path[i + 1]] + Weight(g, path[i])
    ensures costs[path[0]] == Cost(g, path[..|path| - 1])
    decreases |path|
  {
    if |path| == 1 {
      assert path[..0] == [];
    } else {
      var rest := path[1..];
      assert forall i :: 0 <= i < |rest| ==> rest[i] == path[i + 1];
      ChainCost(g, start, costs, rest);
      assert path[..|path| - 1] == [path[0]] + rest[..|rest| - 1];
      CostConcat(g, [path[0]], rest[..|rest| - 1]);
      assert [path[0]][..0] == [];
    }
  }

  /** Predecessor links lead to strictly smaller hop counts, so following
      them from any visited cell ends at the start. */
  lemma UcsRanked(g: Grid, constraint: Position -> bool, heuristic: (Position, Position) -> int,
                  start: Position, target: Position, pred: map<Position, Position>,
                  costs: map<Position, int>, hops: map<Position, nat>, expanded: set<Position>,
                  current: Position, found: bool)
    requires UcsExit(g, constraint, heuristic, start, target, pred, costs, hops, expanded, current, found)
    ensures current in pred && start in pred
    ensures forall k {:trigger pred[k]} :: k in pred && k != start ==>
              pred[k] in pred && k in hops && pred[k] in hops && hops[pred[k]] < hops[k]
              && Step(g, constraint, pred[k], k)
  {
  }

  /** What the reconstructed path means once the search loop has ended,
      either at the target or with an empty queue. */
  lemma UcsConclusion(g: Grid, constraint: Position -> bool, heuristic: (Position, Position) -> int,
                      start: Position, target: Position, pred: map<Position, Position>,
                      costs: map<Position, int>, hops: map<Position, nat>, expanded: set<Position>,
                      current: Position, found: bool, path: seq<Position>)
    requires UcsExit(g, constraint, heuristic, start, target, pred, costs, hops, expanded, current, found)
    requires PredChain(pred, start, current, path)
    ensures |path| >= 1 && path[|path| - 1] == start
    ensures forall i :: 0 <= i < |path| - 1 ==> path[i] != start
    ensures start == target ==> path == [start]
    ensures forall i :: 0 <= i < |path| - 1 ==> Step(g, constraint, path[i + 1], path[i])
    ensures found <==> path[0] == target
    ensures found <==> Reachable(g, constraint, start, target)
    ensures found && ZeroHeuristic(heuristic) ==>
              forall w :: IsWalk(g, constraint, w) && w[0] == start && w[|w| - 1] == target ==>
                Cost(g, path[..|path| - 1]) <= Cost(g, w[1..])
  {
    forall i | 0 <= i < |path| - 1
      ensures Step(g, constraint, path[i + 1], path[i])
    {
      assert path[i] in pred && path[i] != start;
    }
    if found {
      BackChainReachable(g, constraint, start, path);
      if ZeroHeuristic(heuristic) {
        forall i | 0 <= i < |path| - 1
          ensures costs[path[i]] == costs[path[i + 1]] + Weight(g, path[i])
        {
          assert path[i] in pred && path[i] != start;
        }
        ChainCost(g, start, costs, path);
      }
    } else if Reachable(g, constraint, start, target) {
      ClosedHoldsReachable(g, constraint, start, expanded, target);
    }
  }
}
