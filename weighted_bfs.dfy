/**
 * `weighted_bfs(graph, start, goal)`: a FIFO search that keeps a cost
 * table `city -> (predecessor, cost)`, starting at `(start, inf)` for every
 * city and `(start, 0)` for `start`. Each dequeued city is marked visited;
 * every unvisited neighbour is enqueued, and its entry is replaced when the
 * cost through the dequeued city is strictly smaller. When the queue is
 * empty the predecessors are walked back from the goal to `start` and the
 * walk is reversed; the goal's cost is returned with it.
 */
module WeightedBreadthFirst {
  import opened Graph

  /** A table cost: a distance, or the infinity every entry starts with. */
  datatype Cost = Fin(n: nat) | Inf

  /** `cost + distance`: infinity absorbs any distance. */
  function Plus(c: Cost, w: nat): Cost
  {
    if c.Fin? then Fin(c.n + w) else Inf
  }

  /** `a < b`, with infinity above every distance and not below itself. */
  predicate Below(a: Cost, b: Cost)
  {
    a.Fin? && (b.Inf? || a.n < b.n)
  }

  /** `a <= b`. */
  predicate AtMost(a: Cost, b: Cost)
  {
    b.Inf? || (a.Fin? && a.n <= b.n)
  }

  /** One cost-table entry `(predecessor, cost)`. */
  datatype Entry = Entry(pred: City, cost: Cost)

  type Table = map<City, Entry>

  /** `ws` lists, in order, the distances of roads that join each city of
      `p` to the next. */
  ghost predicate RoadsAlong(g: RoadMap, p: seq<City>, ws: seq<nat>)
  {
    |ws| == |p| - 1 && forall i :: 0 <= i < |ws| ==> p[i] in g && Road(p[i + 1], ws[i]) in g[p[i]]
  }

  function Sum(ws: seq<nat>): nat
  {
    if ws == [] then 0 else Sum(ws[..|ws| - 1]) + ws[|ws| - 1]
  }

  /** `c` is the total distance of some choice of roads along `p`. */
  ghost predicate CostsAlong(g: RoadMap, p: seq<City>, c: nat)
  {
    exists ws :: RoadsAlong(g, p, ws) && Sum(ws) == c
  }

  lemma RoadsAlongIsWalk(g: RoadMap, p: seq<City>, ws: seq<nat>)
    requires |p| > 0 && RoadsAlong(g, p, ws)
    ensures IsWalk(g, p)
  {
    forall i | 0 <= i < |p| - 1 ensures IsEdge(g, p[i], p[i + 1]) {
      assert Road(p[i + 1], ws[i]) in g[p[i]];
    }
  }

  /**
   * The inner `for` loop for one dequeued city `curr` whose table cost is `c`:
   * every unvisited neighbour is enqueued, and its entry is replaced by
   * `(curr, c + distance)` when that is strictly cheaper.
   */
  method Relax(g: RoadMap, curr: City, c: Cost, visited: set<City>, queue: seq<City>, table: Table)
    returns (queue': seq<City>, table': Table)
    requires curr in g
    requires forall rd :: rd in g[curr] ==> rd.to in table
    ensures queue' == queue + Unvisited(g[curr], visited)
    // entries only fall, and only for unvisited cities reached across a
    // road out of `curr` ...
    ensures Tightened(curr, c, visited, g[curr], table, table')
    // ... and every such road has been tried
    ensures Tried(c, visited, g[curr], table')
  {
    var roads := g[curr];
    queue', table' := queue, table;
    for i := 0 to |roads|
      invariant queue' == queue + Unvisited(roads[..i], visited)
      invariant Tightened(curr, c, visited, roads, table, table')
      invariant Tried(c, visited, roads[..i], table')
    {
      var nbr := roads[i].to;
      assert roads[i] in roads;
      UnvisitedSnoc(roads, i, visited);
      ghost var before := table';
      if nbr !in visited {
        queue' := queue' + [nbr];
        var total := Plus(c, roads[i].dist);
        if Below(total, table'[nbr].cost) {
          table' := table'[nbr := Entry(curr, total)];
        }
      }
      RelaxedOne(curr, c, visited, roads, i, table, before, table');
    }
    assert roads[..|roads|] == roads;
  }

  /** `t` has the keys of `table`, no higher costs, and differs from it
      only on unvisited cities made strictly cheaper across a road of
      `roads` out of `curr`. */
  ghost predicate Tightened(curr: City, c: Cost, visited: set<City>, roads: seq<Road>, table: Table, t: Table)
  {
    && t.Keys == table.Keys
    && (forall x :: x in table ==> AtMost(t[x].cost, table[x].cost))
    && (forall x :: x in table && t[x] != table[x] ==>
          x !in visited && Below(t[x].cost, table[x].cost) && t[x].pred == curr &&
          exists rd :: rd in roads && rd.to == x && t[x].cost == Plus(c, rd.dist))
  }

  /** Every road of `roads` into an unvisited city costs no less than its
      target's entry in `t`. */
  ghost predicate Tried(c: Cost, visited: set<City>, roads: seq<Road>, t: Table)
  {
    forall j :: 0 <= j < |roads| && roads[j].to !in visited ==>
      roads[j].to in t && AtMost(t[roads[j].to].cost, Plus(c, roads[j].dist))
  }

  /** One pass of the inner loop body keeps both loop facts. */
  lemma RelaxedOne(curr: City, c: Cost, visited: set<City>, roads: seq<Road>, i: nat,
                   table: Table, before: Table, after: Table)
    requires i < |roads| && roads[i].to in before
    requires Tightened(curr, c, visited, roads, table, before)
    requires Tried(c, visited, roads[..i], before)
    requires after == if roads[i].to !in visited && Below(Plus(c, roads[i].dist), before[roads[i].to].cost)
                      then before[roads[i].to := Entry(curr, Plus(c, roads[i].dist))] else before
    ensures Tightened(curr, c, visited, roads, table, after)
    ensures Tried(c, visited, roads[..i + 1], after)
  {
    var nbr := roads[i].to;
    assert roads[i] in roads;
    var pre, init := roads[..i + 1], roads[..i];
    forall j | 0 <= j < |pre| && pre[j].to !in visited
      ensures pre[j].to in after && AtMost(after[pre[j].to].cost, Plus(c, pre[j].dist))
    {
      if j < i {
        assert pre[j] == init[j];
      }
    }
  }

  /** The order in which the reconstruction leaves cities behind: `start`
      last, then cities by their first-dequeue number, unvisited ones
      (numbered `bound`) first. */
  function Measure(rank: map<City, nat>, bound: nat, start: City, x: City): nat
  {
    if x == start then 0 else (if x in rank then rank[x] else bound) + 1
  }

  /**
   * The reconstruction: walk the predecessor entries from `goal` until `start`,
   * then append `start` and reverse. The ghost `rank` and `bound` show
   * that each step moves to a city left behind later, so the walk ends.
   */
  method PredecessorPath(table: Table, start: City, goal: City, ghost rank: map<City, nat>, ghost bound: nat)
    returns (path: seq<City>)
    requires start in table && goal in table
    requires forall x :: x in table && x != start ==>
               table[x].pred in table && Measure(rank, bound, start, table[x].pred) < Measure(rank, bound, start, x)
    ensures |path| > 0 && path[0] == start && path[|path| - 1] == goal
    ensures forall i :: 0 <= i < |path| ==> path[i] in table
    ensures forall i :: 0 <= i < |path| - 1 ==> path[i] == table[path[i + 1]].pred
    ensures Distinct(path)
  {
    var finalPath: seq<City> := [];
    var parent := goal;
    while parent != start
      invariant Walked(table, start, goal, rank, bound, finalPath, parent)
      decreases Measure(rank, bound, start, parent)
    {
      WalkOn(table, start, goal, rank, bound, finalPath, parent);
      finalPath := finalPath + [parent];
      parent := table[parent].pred;
    }
    ghost var walked := finalPath;
    finalPath := finalPath + [start];
    assert finalPath[..|finalPath| - 1] == walked;
    path := Reverse(finalPath);
    ReversedChain(table, start, goal, finalPath, path);
  }

  /** The loop facts of the reconstruction: `w` is the chain walked so far
      from `goal`, and `parent` the next city, not yet appended, which the
      walk leaves behind later than every city of `w`. */
  ghost predicate Walked(table: Table, start: City, goal: City, rank: map<City, nat>, bound: nat,
                         w: seq<City>, parent: City)
  {
    && parent in table
    && (forall i :: 0 <= i < |w| ==> w[i] in table && w[i] != start)
    && (w == [] ==> parent == goal)
    && (w != [] ==> w[0] == goal && table[w[|w| - 1]].pred == parent)
    && (forall i :: 0 <= i < |w| - 1 ==> w[i + 1] == table[w[i]].pred)
    && Distinct(w)
    && (forall i :: 0 <= i < |w| ==> Measure(rank, bound, start, parent) < Measure(rank, bound, start, w[i]))
  }

  /** One step of the reconstruction keeps its loop facts and moves to a
      city left behind later. */
  lemma WalkOn(table: Table, start: City, goal: City, rank: map<City, nat>, bound: nat, w: seq<City>, parent: City)
    requires forall x :: x in table && x != start ==>
               table[x].pred in table && Measure(rank, bound, start, table[x].pred) < Measure(rank, bound, start, x)
    requires Walked(table, start, goal, rank, bound, w, parent) && parent != start
    ensures Walked(table, start, goal, rank, bound, w + [parent], table[parent].pred)
    ensures Measure(rank, bound, start, table[parent].pred) < Measure(rank, bound, start, parent)
  {
    var w', next := w + [parent], table[parent].pred;
    forall i | 0 <= i < |w'| - 1 ensures w'[i + 1] == table[w'[i]].pred {
      assert w'[i] == w[i];
      if i + 1 < |w| { assert w'[i + 1] == w[i + 1]; }
    }
    forall i, j | 0 <= i < j < |w'| ensures w'[i] != w'[j] {
      assert w'[i] == w[i];
      if j < |w| { assert w'[j] == w[j]; }
    }
  }

  /** A predecessor chain from `goal` down to `start`, read backwards. */
  lemma ReversedChain(table: Table, start: City, goal: City, w: seq<City>, path: seq<City>)
    requires |w| > 0 && w[0] == goal && w[|w| - 1] == start
    requires forall i :: 0 <= i < |w| - 1 ==> w[i] in table && w[i + 1] == table[w[i]].pred
    requires start in table
    requires forall i :: 0 <= i < |w| - 1 ==> w[i] != start
    requires Distinct(w[..|w| - 1])
    requires path == Reverse(w)
    ensures |path| > 0 && path[0] == start && path[|path| - 1] == goal
    ensures forall i :: 0 <= i < |path| ==> path[i] in table
    ensures forall i :: 0 <= i < |path| - 1 ==> path[i] == table[path[i + 1]].pred
    ensures Distinct(path)
  {
    var init := w[..|w| - 1];
    assert Distinct(w) by {
      forall i, j | 0 <= i < j < |w| ensures w[i] != w[j] {
        assert w[i] == init[i];
        if j < |w| - 1 { assert w[j] == init[j]; }
      }
    }
    forall i | 0 <= i < |path| - 1 ensures path[i] == table[path[i + 1]].pred {
      var k := |w| - 2 - i;
      assert path[i] == w[k + 1] && path[i + 1] == w[k];
    }
    forall i, j | 0 <= i < j < |path| ensures path[i] != path[j] {
      assert path[i] == w[|w| - 1 - i] && path[j] == w[|w| - 1 - j];
    }
  }

  /** Entry `x` was written while relaxing a road into `x` from a visited
      city, whose own cost has not changed since. */
  ghost predicate Sound(g: RoadMap, table: Table, visited: set<City>, x: City)
    requires x in table && table[x].cost.Fin?
  {
    var p := table[x].pred;
    p in visited && p in table && p in g && table[p].cost.Fin? &&
    table[p].cost.n <= table[x].cost.n && Road(x, table[x].cost.n - table[p].cost.n) in g[p]
  }

  /** The cost-table part of the loop invariant. */
  ghost predicate Costs(g: RoadMap, start: City, queue: seq<City>, table: Table, visited: set<City>, rank: map<City, nat>)
  {
    && table.Keys == g.Keys
    && start in table && table[start] == Entry(start, Fin(0))
    // dequeued and queued cities have finite cost
    && (forall x :: x in visited ==> x in table && table[x].cost.Fin?)
    && (forall x :: x in queue ==> x in table && table[x].cost.Fin?)
    // an untouched entry still points at `start`
    && (forall x :: x in table && x != start && table[x].cost.Inf? ==> table[x].pred == start)
    && (forall x :: x in table && x != start && table[x].cost.Fin? ==> Sound(g, table, visited, x))
    // a visited city's predecessor was dequeued before it
    && (forall x :: x in table && x != start && x in rank ==> table[x].pred in rank && rank[table[x].pred] < rank[x])
  }

  /** The invariant of the `while queue` loop. */
  ghost predicate Inv(g: RoadMap, start: City, queue: seq<City>, table: Table,
                      visited: set<City>, rank: map<City, nat>, n: nat)
  {
    SearchShape(g, start, queue, visited, rank, n) && Costs(g, start, queue, table, visited, rank) && FrontierCovers(g, visited, queue)
  }

  method WeightedBfs(g: RoadMap, start: City, goal: City) returns (path: seq<City>, total: Cost, ghost table: Table)
    requires Closed(g) && start in g && goal in g
    // the path runs from start to goal by predecessor entries; the cost is the goal's
    ensures |path| > 0 && path[0] == start && path[|path| - 1] == goal
    ensures table.Keys == g.Keys
    ensures total == table[goal].cost && table[start] == Entry(start, Fin(0))
    ensures forall i :: 0 <= i < |path| ==> path[i] in table
    ensures forall i :: 0 <= i < |path| - 1 ==> path[i] == table[path[i + 1]].pred
    ensures start == goal ==> path == [start] && total == Fin(0)
    // a finite cost comes with a walk whose roads add up to it
    ensures total.Fin? ==> IsWalk(g, path) && Distinct(path) && CostsAlong(g, path, total.n)
    // an infinite cost: `[start, goal]`, exactly when the goal is unreachable
    ensures total.Inf? ==> path == [start, goal]
    ensures total.Inf? <==> !Reachable(g, start, goal, {})
  {
    var costs, visited;
    ghost var rank, n;
    costs, visited, rank, n := Search(g, start);
    table := costs;
    total := costs[goal].cost;
    Ranked(g, start, table, visited, rank, n);
    path := PredecessorPath(costs, start, goal, rank, n);
    Reconstructed(g, start, goal, table, visited, rank, n, path);
  }

  /**
   * The `while queue` loop, from the initial table to the
   * one it leaves when the queue is empty. The ghost `rank` numbers the
   * visited cities in the order they were first dequeued.
   */
  method Search(g: RoadMap, start: City) returns (table: Table, visited: set<City>, ghost rank: map<City, nat>, ghost n: nat)
    requires Closed(g) && start in g
    // the table keeps one entry per city, and `start` keeps `(start, 0)`
    ensures table.Keys == g.Keys && start in table && table[start] == Entry(start, Fin(0))
    // `start` was visited, and no road leaves the visited cities
    ensures start in visited && visited <= g.Keys
    ensures forall u, rd :: u in visited && rd in g[u] ==> rd.to in visited
    // a visited city's entry is finite
    ensures forall x :: x in visited ==> table[x].cost.Fin?
    ensures Inv(g, start, [], table, visited, rank, n)
  {
    var queue := [start];
    table := map k | k in g :: Entry(start, Inf);
    table := table[start := Entry(start, Fin(0))];
    visited := {};
    rank, n := map[], 0;
    Initial(g, start, table);
    while queue != []
      invariant Inv(g, start, queue, table, visited, rank, n)
      decreases |g.Keys - visited|, CountIn(queue, visited)
    {
      queue, table, visited, rank, n := Visit(g, start, queue, table, visited, rank, n);
    }
  }

  /** Before the first dequeue, every entry points at `start`, only `start`
      has a finite cost, and the queue holds `start` alone. */
  lemma Initial(g: RoadMap, start: City, table: Table)
    requires start in g
    requires table == (map k | k in g :: Entry(start, Inf))[start := Entry(start, Fin(0))]
    ensures Inv(g, start, [start], table, {}, map[], 0)
  {
  }

  /**
   * One pass of the `while queue` loop: the head is dequeued and marked
   * visited, and the neighbour loop relaxes its roads with its current cost.
   */
  method Visit(g: RoadMap, start: City, queue: seq<City>, table: Table, visited: set<City>,
               ghost rank: map<City, nat>, ghost n: nat)
    returns (queue': seq<City>, table': Table, visited': set<City>, ghost rank': map<City, nat>, ghost n': nat)
    requires Closed(g)
    requires Inv(g, start, queue, table, visited, rank, n)
    requires queue != []
    // the head is dequeued and marked; its unvisited neighbours are
    // appended, and their entries are relaxed with the head's cost
    ensures visited' == visited + {queue[0]}
    ensures queue[0] in g && queue[0] in table
    ensures queue' == queue[1..] + Unvisited(g[queue[0]], visited')
    ensures Tightened(queue[0], table[queue[0]].cost, visited', g[queue[0]], table, table')
    ensures Tried(table[queue[0]].cost, visited', g[queue[0]], table')
    // the loop invariant is kept and the termination measure falls
    ensures Inv(g, start, queue', table', visited', rank', n')
    ensures queue[0] !in visited ==> |g.Keys - visited'| < |g.Keys - visited|
    ensures queue[0] in visited ==> visited' == visited && CountIn(queue', visited') < CountIn(queue, visited)
  {
    var curr := queue[0];
    rank', n' := if curr in visited then rank else rank[curr := n], if curr in visited then n else n + 1;
    visited' := visited + {curr};
    Marked(g, start, queue, table, visited, rank, n, visited', rank', n');
    var startToCurr := table[curr].cost;
    queue', table' := Relax(g, curr, startToCurr, visited', queue[1..], table);
    Step(g, start, queue, table, visited, rank, n, queue', table', visited', rank', n');
    QueueProgress(g.Keys, visited, queue, g[curr]);
    if curr in visited {
      assert visited' == visited;
    }
  }

  /** Marking the dequeued city visited numbers it, if new, after every
      city visited before. */
  lemma Marked(g: RoadMap, start: City, queue0: seq<City>, table: Table,
               visited0: set<City>, rank0: map<City, nat>, n0: nat,
               visited: set<City>, rank: map<City, nat>, n: nat)
    requires Closed(g)
    requires Inv(g, start, queue0, table, visited0, rank0, n0)
    requires queue0 != [] && visited == visited0 + {queue0[0]}
    requires rank == (if queue0[0] in visited0 then rank0 else rank0[queue0[0] := n0])
    requires n == (if queue0[0] in visited0 then n0 else n0 + 1)
    ensures queue0[0] in g && queue0[0] in table && table[queue0[0]].cost.Fin?
    ensures forall rd :: rd in g[queue0[0]] ==> rd.to in table
    ensures rank.Keys == visited && forall x :: x in rank ==> rank[x] < n
    ensures forall x :: x in table && x != start && x in rank ==>
              table[x].pred in rank && rank[table[x].pred] < rank[x]
  {
    var curr := queue0[0];
    assert curr in queue0;
    forall x | x in table && x != start && x in rank
      ensures table[x].pred in rank && rank[table[x].pred] < rank[x]
    {
      if x == curr && curr !in visited0 {
        assert Sound(g, table, visited0, x);
      }
    }
  }

  /** Dequeuing a city and relaxing its roads keeps the invariant. */
  lemma Step(g: RoadMap, start: City, queue0: seq<City>, table0: Table,
             visited0: set<City>, rank0: map<City, nat>, n0: nat,
             queue: seq<City>, table: Table, visited: set<City>, rank: map<City, nat>, n: nat)
    requires Closed(g)
    requires Inv(g, start, queue0, table0, visited0, rank0, n0)
    requires queue0 != [] && queue0[0] in g && queue0[0] in table0 && visited == visited0 + {queue0[0]}
    requires rank.Keys == visited && forall x :: x in rank ==> rank[x] < n
    requires forall x :: x in table0 && x != start && x in rank ==>
               table0[x].pred in rank && rank[table0[x].pred] < rank[x]
    requires queue == queue0[1..] + Unvisited(g[queue0[0]], visited)
    requires Tightened(queue0[0], table0[queue0[0]].cost, visited, g[queue0[0]], table0, table)
    requires Tried(table0[queue0[0]].cost, visited, g[queue0[0]], table)
    ensures Inv(g, start, queue, table, visited, rank, n)
  {
    ShapeKept(g, start, queue0, visited0, rank0, n0, queue, visited, rank, n);
    CostsKept(g, start, queue0, table0, visited0, rank0, queue, table, visited, rank);
  }

  /** The cost-table part of the invariant survives one dequeue and
      relaxation. */
  lemma CostsKept(g: RoadMap, start: City, queue0: seq<City>, table0: Table, visited0: set<City>, rank0: map<City, nat>,
                  queue: seq<City>, table: Table, visited: set<City>, rank: map<City, nat>)
    requires Costs(g, start, queue0, table0, visited0, rank0)
    requires queue0 != [] && queue0[0] in g && queue0[0] in table0 && visited == visited0 + {queue0[0]}
    requires start in visited && rank.Keys == visited
    requires forall x :: x in table0 && x != start && x in rank ==>
               table0[x].pred in rank && rank[table0[x].pred] < rank[x]
    requires queue == queue0[1..] + Unvisited(g[queue0[0]], visited)
    requires Tightened(queue0[0], table0[queue0[0]].cost, visited, g[queue0[0]], table0, table)
    requires Tried(table0[queue0[0]].cost, visited, g[queue0[0]], table)
    ensures Costs(g, start, queue, table, visited, rank)
  {
    var curr := queue0[0];
    assert curr in queue0;
    assert forall x :: x in visited ==> x in table && table[x] == table0[x];
    QueueFinite(g, curr, queue0, table0, visited, queue, table);
    SoundKept(g, start, curr, table0, visited0, table, visited);
  }

  /** Every queued city, old or newly appended, has a finite cost. */
  lemma QueueFinite(g: RoadMap, curr: City, queue0: seq<City>, table0: Table, visited: set<City>,
                    queue: seq<City>, table: Table)
    requires queue0 != [] && curr == queue0[0] && curr in g && curr in table0 && table0[curr].cost.Fin?
    requires forall x :: x in queue0 ==> x in table0 && table0[x].cost.Fin?
    requires queue == queue0[1..] + Unvisited(g[curr], visited)
    requires Tightened(curr, table0[curr].cost, visited, g[curr], table0, table)
    requires Tried(table0[curr].cost, visited, g[curr], table)
    ensures forall x :: x in queue ==> x in table && table[x].cost.Fin?
  {
    forall x | x in queue ensures x in table && table[x].cost.Fin? {
      if x in queue0[1..] {
        assert x in queue0;
      } else {
        UnvisitedMembers(g[curr], visited, x);
        var rd :| rd in g[curr] && rd.to == x;
        var j :| 0 <= j < |g[curr]| && g[curr][j] == rd;
      }
    }
  }

  /** A relaxed entry points across a road at the dequeued city, whose
      cost is final; an untouched one keeps its old justification. */
  lemma SoundKept(g: RoadMap, start: City, curr: City, table0: Table, visited0: set<City>, table: Table, visited: set<City>)
    requires curr in g && curr in table0 && table0[curr].cost.Fin? && visited == visited0 + {curr}
    requires forall x :: x in table0 && x != start && table0[x].cost.Fin? ==> Sound(g, table0, visited0, x)
    requires forall x :: x in table0 && x != start && table0[x].cost.Inf? ==> table0[x].pred == start
    requires visited <= table0.Keys
    requires forall x :: x in visited ==> x in table && table[x] == table0[x]
    requires Tightened(curr, table0[curr].cost, visited, g[curr], table0, table)
    ensures forall x :: x in table && x != start && table[x].cost.Inf? ==> table[x].pred == start
    ensures forall x :: x in table && x != start && table[x].cost.Fin? ==> Sound(g, table, visited, x)
  {
    var c := table0[curr].cost;
    forall x | x in table && x != start && table[x].cost.Fin? ensures Sound(g, table, visited, x) {
      if table[x] != table0[x] {
        var rd :| rd in g[curr] && rd.to == x && table[x].cost == Plus(c, rd.dist);
        assert rd == Road(x, table[x].cost.n - table[curr].cost.n);
      } else {
        assert Sound(g, table0, visited0, x);
      }
    }
  }

  /** After the loop, every predecessor entry leads to a city the
      reconstruction leaves behind later. */
  lemma Ranked(g: RoadMap, start: City, table: Table, visited: set<City>, rank: map<City, nat>, n: nat)
    requires Inv(g, start, [], table, visited, rank, n)
    ensures forall x :: x in table && x != start ==>
              table[x].pred in table && Measure(rank, n, start, table[x].pred) < Measure(rank, n, start, x)
  {
    forall x | x in table && x != start
      ensures table[x].pred in table && Measure(rank, n, start, table[x].pred) < Measure(rank, n, start, x)
    {
      if table[x].cost.Fin? {
        assert Sound(g, table, visited, x);
      }
    }
  }

  /** Distances add up along a chain of predecessor entries that starts at
      `start`. */
  lemma {:induction false} Telescope(g: RoadMap, start: City, table: Table, visited: set<City>, p: seq<City>)
    requires start in table && table[start].cost == Fin(0)
    requires forall x :: x in table && x != start && table[x].cost.Fin? ==> Sound(g, table, visited, x)
    requires |p| > 0 && p[0] == start
    requires forall i :: 0 <= i < |p| ==> p[i] in table
    requires forall i :: 0 < i < |p| ==> p[i] != start
    requires forall i :: 0 <= i < |p| - 1 ==> p[i] == table[p[i + 1]].pred
    requires table[p[|p| - 1]].cost.Fin?
    ensures CostsAlong(g, p, table[p[|p| - 1]].cost.n)
  {
    if |p| == 1 {
      assert RoadsAlong(g, p, []) && Sum([]) == 0;
    } else {
      var q := p[..|p| - 1];
      var x, u := p[|p| - 1], p[|p| - 2];
      assert Sound(g, table, visited, x);
      Telescope(g, start, table, visited, q);
      var ws :| RoadsAlong(g, q, ws) && Sum(ws) == table[u].cost.n;
      var d := table[x].cost.n - table[u].cost.n;
      var ws' := ws + [d];
      assert ws'[..|ws'| - 1] == ws;
      assert RoadsAlong(g, p, ws') by {
        forall i | 0 <= i < |ws'| ensures p[i] in g && Road(p[i + 1], ws'[i]) in g[p[i]] {
          if i < |ws| {
            assert p[i] == q[i] && p[i + 1] == q[i + 1];
          }
        }
      }
    }
  }

  /** What the reconstructed path and the goal's cost mean. */
  lemma Reconstructed(g: RoadMap, start: City, goal: City, table: Table, visited: set<City>,
                      rank: map<City, nat>, n: nat, path: seq<City>)
    requires Inv(g, start, [], table, visited, rank, n)
    requires goal in table
    requires |path| > 0 && path[0] == start && path[|path| - 1] == goal
    requires forall i :: 0 <= i < |path| ==> path[i] in table
    requires forall i :: 0 <= i < |path| - 1 ==> path[i] == table[path[i + 1]].pred
    requires Distinct(path)
    ensures start == goal ==> path == [start]
    ensures table[goal].cost.Fin? ==> IsWalk(g, path) && CostsAlong(g, path, table[goal].cost.n)
    ensures table[goal].cost.Inf? ==> path == [start, goal]
    ensures table[goal].cost.Inf? <==> !Reachable(g, start, goal, {})
  {
    if start == goal {
      assert |path| == 1;
      assert path == [start];
    }
    if table[goal].cost.Fin? {
      Telescope(g, start, table, visited, path);
      var ws :| RoadsAlong(g, path, ws) && Sum(ws) == table[goal].cost.n;
      RoadsAlongIsWalk(g, path, ws);
      WalkReaches(g, path, {});
    } else {
      assert goal != start && table[goal].pred == start;
      assert path[|path| - 2] == start;
      assert |path| == 2;
      assert path == [start, goal];
      assert goal !in visited;
      DrainedIsUnreachable(g, visited, start, goal);
    }
  }
}
