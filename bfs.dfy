/**
 * `bfs(graph, node, goal)`: FIFO search that marks a city visited when it
 * is dequeued, records the dequeued city as parent of every unvisited
 * neighbour (overwriting earlier records), enqueues those neighbours even
 * when already queued, and on dequeuing the goal returns the parent chain
 * as built: goal first, start last.
 */
module BreadthFirst {
  import opened Graph

  /**
   * The neighbour loop for one dequeued city `curr`: appends each
   * unvisited neighbour to the queue, in adjacency-list order, and makes
   * `curr` its parent.
   */
  method RecordParents(g: RoadMap, curr: City, visited: set<City>, queue: seq<City>, parent: map<City, City>)
    returns (queue': seq<City>, parent': map<City, City>)
    requires curr in g
    // the unvisited neighbours are appended in adjacency-list order
    ensures queue' == queue + Unvisited(g[curr], visited)
    // each of them now points at `curr`; every other entry is unchanged
    ensures forall x :: x in parent' <==> x in parent || x in Unvisited(g[curr], visited)
    ensures forall x :: x in parent' ==>
              parent'[x] == if x in Unvisited(g[curr], visited) then curr else parent[x]
  {
    var roads := g[curr];
    queue', parent' := queue, parent;
    for i := 0 to |roads|
      invariant queue' == queue + Unvisited(roads[..i], visited)
      invariant forall x :: x in parent' <==> x in parent || x in Unvisited(roads[..i], visited)
      invariant forall x :: x in parent' ==>
                  parent'[x] == if x in Unvisited(roads[..i], visited) then curr else parent[x]
    {
      var nbr := roads[i].to;
      UnvisitedSnoc(roads, i, visited);
      if nbr !in visited {
        parent' := parent'[nbr := curr];
        queue' := queue' + [nbr];
      }
    }
    assert roads[..|roads|] == roads;
  }

  /**
   * The reconstruction: collects the cities met by following the parent
   * map from `from` until it reaches a city with no entry. The ghost `rank`
   * (the order in which cities were first dequeued) falls along every
   * recorded parent link of a ranked city, so the walk ends.
   */
  method ParentChain(parent: map<City, City>, from: City, ghost rank: map<City, nat>)
    returns (path: seq<City>)
    requires from in rank
    requires forall x :: x in parent && x in rank ==> parent[x] in rank && rank[parent[x]] < rank[x]
    ensures |path| > 0 && path[0] == from && path[|path| - 1] !in parent
    ensures forall i :: 0 <= i < |path| - 1 ==> path[i] in parent && path[i + 1] == parent[path[i]]
    ensures forall i :: 0 <= i < |path| ==> path[i] in rank
    ensures Distinct(path)
  {
    path := [];
    var cur: Option<City> := Some(from);
    while cur.Some?
      invariant cur.Some? ==> cur.value in rank
      invariant path == [] ==> cur == Some(from)
      invariant path != [] ==> path[0] == from
      invariant forall i :: 0 <= i < |path| ==> path[i] in rank
      invariant forall i :: 0 <= i < |path| - 1 ==> path[i] in parent && path[i + 1] == parent[path[i]]
      invariant path != [] && cur.Some? ==> path[|path| - 1] in parent && cur.value == parent[path[|path| - 1]]
      invariant path != [] && cur.None? ==> path[|path| - 1] !in parent
      invariant forall i, j :: 0 <= i < j < |path| ==> rank[path[j]] < rank[path[i]]
      invariant cur.Some? ==> forall i :: 0 <= i < |path| ==> rank[cur.value] < rank[path[i]]
      decreases if cur.Some? then rank[cur.value] + 1 else 0
    {
      var x := cur.value;
      path := path + [x];
      cur := if x in parent then Some(parent[x]) else None;
    }
  }

  /** The parent-map part of the loop invariant. */
  ghost predicate Parents(g: RoadMap, start: City, goal: City, queue: seq<City>, parent: map<City, City>,
                          visited: set<City>, rank: map<City, nat>)
  {
    && goal !in visited
    && (visited == {} ==> parent == map[])
    && start !in parent
    // a parent entry points at a visited city that has a road to the entry
    && (forall x :: x in parent ==> parent[x] in visited && IsEdge(g, parent[x], x))
    // a visited city's parent was dequeued before it
    && (forall x :: x in parent && x in rank ==> parent[x] in rank && rank[parent[x]] < rank[x])
    && visited - parent.Keys <= {start}
    && (forall x :: x in queue ==> x == start || x in parent)
  }

  /** The invariant of the `while queue` loop. */
  ghost predicate Inv(g: RoadMap, start: City, goal: City, queue: seq<City>, parent: map<City, City>,
                      visited: set<City>, rank: map<City, nat>, n: nat)
  {
    SearchShape(g, start, queue, visited, rank, n) && Parents(g, start, goal, queue, parent, visited, rank) && FrontierCovers(g, visited, queue)
  }

  method Bfs(g: RoadMap, start: City, goal: City) returns (r: Option<seq<City>>)
    requires Closed(g) && start in g
    ensures start == goal ==> r == Some([start])
    // a result is the parent chain: goal first, start last, each city a
    // neighbour of the one after it, no city twice
    ensures r.Some? ==> |r.value| > 0 && r.value[0] == goal && r.value[|r.value| - 1] == start
    ensures r.Some? ==> IsBackwardWalk(g, r.value) && Distinct(r.value)
    // no result exactly when the goal cannot be reached
    ensures r.None? <==> !Reachable(g, start, goal, {})
  {
    var queue := [start];
    var parent: map<City, City> := map[];
    var visited: set<City> := {};
    ghost var rank: map<City, nat> := map[];
    ghost var n: nat := 0;
    Initial(g, start, goal);
    while queue != []
      invariant Inv(g, start, goal, queue, parent, visited, rank, n)
      decreases |g.Keys - visited|, CountIn(queue, visited)
    {
      var curr := queue[0];
      if curr == goal {
        ghost var rank1, n1 := if curr in visited then rank else rank[curr := n], if curr in visited then n else n + 1;
        Marked(g, start, goal, queue, parent, visited, rank, n, visited + {curr}, rank1, n1);
        var path := ParentChain(parent, curr, rank1);
        Found(g, start, goal, queue, parent, visited, rank, n, visited + {curr}, rank1, path);
        return Some(path);
      }
      queue, parent, visited, rank, n := Expand(g, start, goal, queue, parent, visited, rank, n);
    }
    r := None;
    DrainedIsUnreachable(g, visited, start, goal);
  }

  /** Before the first dequeue, the queue holds `start` alone and no city
      is visited or has a parent. */
  lemma Initial(g: RoadMap, start: City, goal: City)
    requires start in g
    ensures Inv(g, start, goal, [start], map[], {}, map[], 0)
  {
  }

  /**
   * One pass of the `while queue` loop that dequeues a city other than the
   * goal: the city is marked visited, and the neighbour loop records it as
   * parent of its unvisited neighbours and enqueues them.
   */
  method Expand(g: RoadMap, start: City, goal: City, queue: seq<City>, parent: map<City, City>,
                visited: set<City>, ghost rank: map<City, nat>, ghost n: nat)
    returns (queue': seq<City>, parent': map<City, City>, visited': set<City>, ghost rank': map<City, nat>, ghost n': nat)
    requires Closed(g)
    requires Inv(g, start, goal, queue, parent, visited, rank, n)
    requires queue != [] && queue[0] != goal
    // the head is dequeued and marked; its unvisited neighbours are
    // appended and take it as their parent
    ensures visited' == visited + {queue[0]}
    ensures queue' == queue[1..] + Unvisited(g[queue[0]], visited')
    ensures forall x :: x in parent' <==> x in parent || x in Unvisited(g[queue[0]], visited')
    ensures forall x :: x in parent' ==>
              parent'[x] == if x in Unvisited(g[queue[0]], visited') then queue[0] else parent[x]
    // the loop invariant is kept and the termination measure falls
    ensures Inv(g, start, goal, queue', parent', visited', rank', n')
    ensures queue[0] !in visited ==> |g.Keys - visited'| < |g.Keys - visited|
    ensures queue[0] in visited ==> visited' == visited && CountIn(queue', visited') < CountIn(queue, visited)
  {
    var curr := queue[0];
    rank', n' := if curr in visited then rank else rank[curr := n], if curr in visited then n else n + 1;
    Marked(g, start, goal, queue, parent, visited, rank, n, visited + {curr}, rank', n');
    queue' := queue[1..];
    visited' := visited + {curr};
    queue', parent' := RecordParents(g, curr, visited', queue', parent);
    Step(g, start, goal, queue, parent, visited, rank, n, queue', parent', visited', rank', n');
    QueueProgress(g.Keys, visited, queue, g[curr]);
    if curr in visited {
      assert visited' == visited;
    }
  }

  /** Dequeuing the head of the queue and marking it visited numbers it,
      if new, after every city visited before. */
  lemma Marked(g: RoadMap, start: City, goal: City, queue0: seq<City>, parent: map<City, City>,
               visited0: set<City>, rank0: map<City, nat>, n0: nat,
               visited: set<City>, rank: map<City, nat>, n: nat)
    requires Inv(g, start, goal, queue0, parent, visited0, rank0, n0)
    requires queue0 != [] && visited == visited0 + {queue0[0]}
    requires rank == (if queue0[0] in visited0 then rank0 else rank0[queue0[0] := n0])
    requires n == (if queue0[0] in visited0 then n0 else n0 + 1)
    ensures queue0[0] in g
    ensures rank.Keys == visited && forall x :: x in rank ==> rank[x] < n
    ensures forall x :: x in parent && x in rank ==> parent[x] in rank && rank[parent[x]] < rank[x]
  {
    var curr := queue0[0];
    forall x | x in parent && x in rank ensures parent[x] in rank && rank[parent[x]] < rank[x] {
      if x == curr && curr !in visited0 {
        assert parent[x] in visited0;
      }
    }
  }

  /** On dequeuing the goal, the parent chain from it is the answer. */
  lemma Found(g: RoadMap, start: City, goal: City, queue0: seq<City>, parent: map<City, City>,
              visited0: set<City>, rank0: map<City, nat>, n0: nat,
              visited: set<City>, rank: map<City, nat>, path: seq<City>)
    requires Inv(g, start, goal, queue0, parent, visited0, rank0, n0)
    requires queue0 != [] && queue0[0] == goal && visited == visited0 + {goal}
    requires rank.Keys == visited
    requires |path| > 0 && path[0] == goal && path[|path| - 1] !in parent
    requires forall i :: 0 <= i < |path| - 1 ==> path[i] in parent && path[i + 1] == parent[path[i]]
    requires forall i :: 0 <= i < |path| ==> path[i] in rank
    requires Distinct(path)
    ensures start == goal ==> path == [start]
    ensures path[|path| - 1] == start
    ensures IsBackwardWalk(g, path)
    ensures Reachable(g, start, goal, {})
  {
    if start == goal {
      assert visited0 == {} && parent == map[];
      assert |path| == 1;
      assert path == [start];
    }
    assert queue0[0] in queue0;
    assert visited - parent.Keys <= {start};
    assert path[|path| - 1] in visited - parent.Keys;
    ReverseBackwardWalk(g, path);
    var w := Reverse(path);
    assert w[0] == path[|path| - 1];
    assert w[0] == start && w[|w| - 1] == goal;
    WalkReaches(g, w, {});
  }

  /** Dequeuing a city other than the goal and recording its unvisited
      neighbours keeps the invariant. */
  lemma Step(g: RoadMap, start: City, goal: City, queue0: seq<City>, parent0: map<City, City>,
             visited0: set<City>, rank0: map<City, nat>, n0: nat,
             queue: seq<City>, parent: map<City, City>, visited: set<City>, rank: map<City, nat>, n: nat)
    requires Closed(g)
    requires Inv(g, start, goal, queue0, parent0, visited0, rank0, n0)
    requires queue0 != [] && queue0[0] != goal && visited == visited0 + {queue0[0]}
    requires rank.Keys == visited && forall x :: x in rank ==> rank[x] < n
    requires forall x :: x in parent0 && x in rank ==> rank[parent0[x]] < rank[x]
    requires queue0[0] in g
    requires queue == queue0[1..] + Unvisited(g[queue0[0]], visited)
    requires forall x :: x in parent <==> x in parent0 || x in Unvisited(g[queue0[0]], visited)
    requires forall x :: x in parent ==>
               parent[x] == if x in Unvisited(g[queue0[0]], visited) then queue0[0] else parent0[x]
    ensures Inv(g, start, goal, queue, parent, visited, rank, n)
  {
    var curr := queue0[0];
    ShapeKept(g, start, queue0, visited0, rank0, n0, queue, visited, rank, n);
    Dequeued(g, curr, visited0, visited, queue0, queue, parent0, parent);
    UnvisitedAvoids(g[curr], visited);
    assert start in visited;
    forall x | x in queue ensures x == start || x in parent {
      if x in queue0[1..] {
        assert x in queue0;
      }
    }
  }

  /** Recording the unvisited neighbours of the dequeued city makes it
      their parent, with a road from it to each. */
  lemma Dequeued(g: RoadMap, curr: City, oldVisited: set<City>, visited: set<City>,
                 oldQueue: seq<City>, queue: seq<City>, oldParent: map<City, City>, parent: map<City, City>)
    requires Closed(g) && curr in g
    requires oldQueue != [] && curr == oldQueue[0] && visited == oldVisited + {curr}
    requires queue == oldQueue[1..] + Unvisited(g[curr], visited)
    requires forall x :: x in parent <==> x in oldParent || x in Unvisited(g[curr], visited)
    requires forall x :: x in parent ==>
               parent[x] == if x in Unvisited(g[curr], visited) then curr else oldParent[x]
    requires forall x :: x in oldQueue ==> x in g
    requires forall x :: x in oldParent ==> oldParent[x] in oldVisited && IsEdge(g, oldParent[x], x)
    requires FrontierCovers(g, oldVisited, oldQueue)
    ensures forall x :: x in parent ==> parent[x] in visited && IsEdge(g, parent[x], x)
    ensures forall x :: x in visited && x in oldParent ==> x in parent && parent[x] == oldParent[x]
    ensures forall x :: x in queue ==> x in oldQueue[1..] || x in parent
    ensures forall x :: x in queue ==> x in g
    ensures FrontierCovers(g, visited, queue)
  {
    var found := Unvisited(g[curr], visited);
    UnvisitedAvoids(g[curr], visited);
    forall x | x in parent ensures parent[x] in visited && IsEdge(g, parent[x], x) {
      if x in found {
        UnvisitedMembers(g[curr], visited, x);
        var rd :| rd in g[curr] && rd.to == x;
      }
    }
    FrontierAfterDequeue(g, oldVisited, oldQueue, queue);
  }
}
