/**
 * `dfs(graph, node, goal, visited)`: recursive depth-first search that
 * marks `node` visited, answers `[node]` at the goal, and otherwise tries
 * the unvisited neighbours in adjacency-list order, returning the first
 * path found prefixed with `node`, or `[]`.
 */
module DepthFirst {
  import opened Graph

  /**
   * The caller's `visited` set, which the search grows in place, is passed
   * in as `visited` and handed back, grown, as `visitedOut`.
   */
  method Dfs(g: RoadMap, node: City, goal: City, visited: set<City>)
    returns (path: seq<City>, visitedOut: set<City>)
    requires Closed(g) && node in g
    // `visited` only grows, and only by `node` and cities of the graph
    ensures visited + {node} <= visitedOut
    ensures visitedOut - visited <= g.Keys
    ensures node == goal ==> path == [node] && visitedOut == visited + {node}
    // a non-empty answer is a walk from `node` to `goal` through visited cities
    ensures path != [] ==> IsWalk(g, path) && path[0] == node && path[|path| - 1] == goal
    ensures forall i :: 0 <= i < |path| ==> path[i] in visitedOut
    ensures node !in visited ==> Distinct(path) && Avoids(path, visited)
    // an empty answer: every newly visited city is not the goal and has all
    // its neighbours visited
    ensures path == [] ==> goal !in visitedOut - visited && ClosedUnder(g, visitedOut - visited, visited)
    // so `[]` means the goal cannot be reached outside the entry set
    ensures path == [] ==> !Reachable(g, node, goal, visited)
    ensures node !in visited ==> (path == [] <==> !Reachable(g, node, goal, visited))
    decreases |g.Keys - visited|, if node in visited then 1 else 0
  {
    visitedOut := visited + {node};
    if node == goal {
      path := [node];
      return;
    }
    var roads := g[node];
    var i := 0;
    while i < |roads|
      invariant 0 <= i <= |roads|
      invariant visited + {node} <= visitedOut
      invariant visitedOut - visited <= g.Keys
      invariant forall j :: 0 <= j < i ==> roads[j].to in visitedOut
      invariant goal !in visitedOut - visited
      invariant Expanded(g, visitedOut - visited - {node}, visitedOut)
    {
      var nbr := roads[i].to;
      assert roads[i] in g[node];
      if nbr !in visitedOut {
        DifferenceShrinks(g.Keys, visited, visitedOut, node);
        ghost var before := visitedOut;
        var sub;
        sub, visitedOut := Dfs(g, nbr, goal, visitedOut);
        if sub != [] {
          path := [node] + sub;
          Prepend(g, node, sub, visited, before, visitedOut);
          return;
        }
        StillExpanded(g, node, visited, before, visitedOut);
      }
      i := i + 1;
    }
    path := [];
    Exhausted(g, node, goal, visited, visitedOut);
  }

  /** Every road out of `s` ends in `within`. */
  ghost predicate Expanded(g: RoadMap, s: set<City>, within: set<City>)
  {
    forall u, r :: u in s && u in g && r in g[u] ==> r.to in within
  }

  /** A failed recursive search leaves every city it visited expanded, so
      the loop's cities stay expanded too. */
  lemma StillExpanded(g: RoadMap, node: City, visited: set<City>, before: set<City>, after: set<City>)
    requires before <= after
    requires Expanded(g, before - visited - {node}, before)
    requires ClosedUnder(g, after - before, before)
    ensures Expanded(g, after - visited - {node}, after)
  {
  }

  /** What the search states of `[node] + sub` when the recursive search
      from a neighbour of `node` returned `sub`. */
  lemma Prepend(g: RoadMap, node: City, sub: seq<City>, visited: set<City>, before: set<City>, after: set<City>)
    requires IsWalk(g, sub) && IsEdge(g, node, sub[0])
    requires node in before && visited <= before <= after
    requires forall i :: 0 <= i < |sub| ==> sub[i] in after
    requires Distinct(sub) && Avoids(sub, before)
    ensures IsWalk(g, [node] + sub)
    ensures forall k :: 0 <= k < |[node] + sub| ==> ([node] + sub)[k] in after
    ensures node !in visited ==> Distinct([node] + sub) && Avoids([node] + sub, visited)
    ensures node !in visited ==> Reachable(g, node, sub[|sub| - 1], visited)
  {
    var path := [node] + sub;
    ConsWalk(g, node, sub);
    forall k | 0 <= k < |path| ensures path[k] in after {
      if k > 0 { assert path[k] == sub[k - 1]; }
    }
    if node !in visited {
      assert Avoids(path, visited) by {
        forall k | 0 <= k < |path| ensures path[k] !in visited {
          if k > 0 { assert path[k] == sub[k - 1]; }
        }
      }
      assert Distinct(path) by {
        forall a, b | 0 <= a < b < |path| ensures path[a] != path[b] {
          assert path[b] == sub[b - 1];
          if a > 0 { assert path[a] == sub[a - 1]; }
        }
      }
      WalkReaches(g, path, visited);
      assert path[|path| - 1] == sub[|sub| - 1];
    }
  }

  /** Once every neighbour of `node` is visited and no recursive search
      succeeded, the newly visited cities trap every walk that avoids the
      entry set. */
  lemma Exhausted(g: RoadMap, node: City, goal: City, visited: set<City>, visitedOut: set<City>)
    requires node in g && node in visitedOut && node != goal
    requires forall j :: 0 <= j < |g[node]| ==> g[node][j].to in visitedOut
    requires goal !in visitedOut - visited
    requires Expanded(g, visitedOut - visited - {node}, visitedOut)
    ensures ClosedUnder(g, visitedOut - visited, visited)
    ensures !Reachable(g, node, goal, visited)
  {
    forall r | r in g[node] ensures r.to in visitedOut {
      var j :| 0 <= j < |g[node]| && g[node][j] == r;
    }
    TrappedIsUnreachable(g, visitedOut - visited, visited, node, goal);
  }
}
