/**
 * The road graph shared by the three searches: an adjacency list from each
 * city to its (neighbour, distance) pairs, walks through it, reachability,
 * and the small sequence helpers the searches' loops are specified with.
 */
module Graph {

  type City = string

  /** One entry `(connected_city, distance)` of a city's adjacency list. */
  datatype Road = Road(to: City, dist: nat)

  type RoadMap = map<City, seq<Road>>

  datatype Option<T> = None | Some(value: T)

  /** Every neighbour named in an adjacency list is itself a key: the
      searches look up `graph[nbr]` without a guard. */
  ghost predicate Closed(g: RoadMap)
  {
    forall u, r :: u in g && r in g[u] ==> r.to in g
  }

  ghost predicate IsEdge(g: RoadMap, u: City, v: City)
  {
    u in g && exists r :: r in g[u] && r.to == v
  }

  /** A non-empty sequence of cities in which each one is a neighbour of
      the one before. */
  ghost predicate IsWalk(g: RoadMap, p: seq<City>)
  {
    |p| > 0 && forall i :: 0 <= i < |p| - 1 ==> IsEdge(g, p[i], p[i + 1])
  }

  /** Each city of `p` is a neighbour of the one after it: a walk read
      from its end. */
  ghost predicate IsBackwardWalk(g: RoadMap, p: seq<City>)
  {
    |p| > 0 && forall i :: 0 <= i < |p| - 1 ==> IsEdge(g, p[i + 1], p[i])
  }

  ghost predicate Avoids(p: seq<City>, avoid: set<City>)
  {
    forall i :: 0 <= i < |p| ==> p[i] !in avoid
  }

  ghost predicate Distinct(p: seq<City>)
  {
    forall i, j :: 0 <= i < j < |p| ==> p[i] != p[j]
  }

  /** `b` can be reached from `a` by a walk none of whose cities is in
      `avoid`. */
  ghost predicate Reachable(g: RoadMap, a: City, b: City, avoid: set<City>)
  {
    exists p :: IsWalk(g, p) && p[0] == a && p[|p| - 1] == b && Avoids(p, avoid)
  }

  /** No road leaves `s` except into `avoid`. */
  ghost predicate ClosedUnder(g: RoadMap, s: set<City>, avoid: set<City>)
  {
    forall u, r :: u in s && u in g && r in g[u] ==> r.to in s || r.to in avoid
  }

  /** A walk that starts in a set no road leaves (except into `avoid`) and
      never enters `avoid` stays in the set. */
  lemma {:induction false} WalkStaysInside(g: RoadMap, s: set<City>, avoid: set<City>, p: seq<City>)
    requires ClosedUnder(g, s, avoid)
    requires IsWalk(g, p) && p[0] in s && Avoids(p, avoid)
    ensures forall i :: 0 <= i < |p| ==> p[i] in s
  {
    if |p| > 1 {
      var q := p[..|p| - 1];
      assert IsWalk(g, q) by {
        forall i | 0 <= i < |q| - 1 ensures IsEdge(g, q[i], q[i + 1]) {
          assert q[i] == p[i] && q[i + 1] == p[i + 1];
        }
      }
      WalkStaysInside(g, s, avoid, q);
      var u := p[|p| - 2];
      assert u == q[|q| - 1];
      assert IsEdge(g, u, p[|p| - 1]);
      var r :| r in g[u] && r.to == p[|p| - 1];
      assert p[|p| - 1] !in avoid;
      forall i | 0 <= i < |p| ensures p[i] in s {
        if i < |p| - 1 {
          assert p[i] == q[i];
        }
      }
    }
  }

  /** Reachability is bounded by any set that contains the start, excludes
      the target, and that no road leaves except into `avoid`. */
  lemma TrappedIsUnreachable(g: RoadMap, s: set<City>, avoid: set<City>, a: City, b: City)
    requires ClosedUnder(g, s, avoid)
    requires a in s || a in avoid
    requires b !in s
    ensures !Reachable(g, a, b, avoid)
  {
    forall p | IsWalk(g, p) && p[0] == a && Avoids(p, avoid)
      ensures p[|p| - 1] != b
    {
      WalkStaysInside(g, s, avoid, p);
    }
  }

  /** Dequeuing the head of the queue into the visited set and appending
      its unvisited neighbours keeps every road out of a visited city
      pointing at a visited or queued city. */
  lemma FrontierAfterDequeue(g: RoadMap, visited0: set<City>, queue0: seq<City>, queue: seq<City>)
    requires Closed(g) && queue0 != [] && queue0[0] in g
    requires queue == queue0[1..] + Unvisited(g[queue0[0]], visited0 + {queue0[0]})
    requires forall x :: x in queue0 ==> x in g
    requires FrontierCovers(g, visited0, queue0)
    ensures forall x :: x in queue ==> x in g
    ensures FrontierCovers(g, visited0 + {queue0[0]}, queue)
  {
    var curr, visited := queue0[0], visited0 + {queue0[0]};
    forall u, rd | u in visited && u in g && rd in g[u] ensures rd.to in visited || rd.to in queue {
      if rd.to !in visited {
        if u == curr {
          UnvisitedMembers(g[curr], visited, rd.to);
        } else {
          assert rd.to in queue0 && rd.to != queue0[0];
          assert rd.to in queue0[1..];
        }
      }
    }
    forall x | x in queue ensures x in g {
      if x !in queue0[1..] {
        UnvisitedMembers(g[curr], visited, x);
        var rd :| rd in g[curr] && rd.to == x;
      }
    }
  }

  /**
   * The part of a FIFO search's loop invariant that does not depend on
   * what the search records: visited and queued cities are cities of the
   * graph, the loop is either at its start or has visited `start`, and the
   * ghost `rank` numbers the visited cities, in the order they were first
   * dequeued, below `n`.
   */
  ghost predicate SearchShape(g: RoadMap, start: City, queue: seq<City>, visited: set<City>,
                              rank: map<City, nat>, n: nat)
  {
    && visited <= g.Keys && (forall x :: x in queue ==> x in g)
    && (start in visited || (visited == {} && queue == [start]))
    && rank.Keys == visited && (forall x :: x in rank ==> rank[x] < n)
  }

  /** One dequeue that appends the unvisited neighbours keeps the shape of
      the search and its frontier. */
  lemma ShapeKept(g: RoadMap, start: City, queue0: seq<City>, visited0: set<City>, rank0: map<City, nat>, n0: nat,
                  queue: seq<City>, visited: set<City>, rank: map<City, nat>, n: nat)
    requires Closed(g)
    requires SearchShape(g, start, queue0, visited0, rank0, n0) && FrontierCovers(g, visited0, queue0)
    requires queue0 != [] && queue0[0] in g && visited == visited0 + {queue0[0]}
    requires queue == queue0[1..] + Unvisited(g[queue0[0]], visited)
    requires rank.Keys == visited && forall x :: x in rank ==> rank[x] < n
    ensures SearchShape(g, start, queue, visited, rank, n) && FrontierCovers(g, visited, queue)
  {
    FrontierAfterDequeue(g, visited0, queue0, queue);
    assert start in visited;
  }

  /** Once the queue is empty, nothing outside the visited cities can be
      reached from a visited one. */
  lemma DrainedIsUnreachable(g: RoadMap, visited: set<City>, a: City, b: City)
    requires FrontierCovers(g, visited, [])
    requires a in visited && b !in visited
    ensures !Reachable(g, a, b, {})
  {
    TrappedIsUnreachable(g, visited, {}, a, b);
  }

  /** A walk witnesses reachability between its ends. */
  lemma WalkReaches(g: RoadMap, p: seq<City>, avoid: set<City>)
    requires IsWalk(g, p) && Avoids(p, avoid)
    ensures Reachable(g, p[0], p[|p| - 1], avoid)
  {
  }

  /** Prepending a city that has a road to the head extends a walk. */
  lemma ConsWalk(g: RoadMap, u: City, p: seq<City>)
    requires IsWalk(g, p) && IsEdge(g, u, p[0])
    ensures IsWalk(g, [u] + p)
  {
    var q := [u] + p;
    forall i | 0 <= i < |q| - 1 ensures IsEdge(g, q[i], q[i + 1]) {
      if i > 0 {
        assert q[i] == p[i - 1] && q[i + 1] == p[i];
      }
    }
  }

  function Reverse(s: seq<City>): (r: seq<City>)
    ensures |r| == |s|
    ensures forall i :: 0 <= i < |s| ==> r[i] == s[|s| - 1 - i]
  {
    if s == [] then [] else Reverse(s[1..]) + [s[0]]
  }

  /** Read backwards, a backward walk is a walk, and reversal keeps a
      sequence free of repeats. */
  lemma ReverseBackwardWalk(g: RoadMap, p: seq<City>)
    requires IsBackwardWalk(g, p)
    ensures IsWalk(g, Reverse(p))
    ensures Distinct(p) ==> Distinct(Reverse(p))
  {
    var r := Reverse(p);
    forall i | 0 <= i < |r| - 1 ensures IsEdge(g, r[i], r[i + 1]) {
      var k := |p| - 2 - i;
      assert r[i] == p[k + 1] && r[i + 1] == p[k];
    }
    if Distinct(p) {
      forall i, j | 0 <= i < j < |r| ensures r[i] != r[j] {
        assert r[i] == p[|p| - 1 - i] && r[j] == p[|p| - 1 - j];
      }
    }
  }

  /**
   * The neighbours in `roads` that are not in `visited`, in adjacency-list
   * order and with repeats: what one pass of a search's neighbour loop
   * appends to the queue.
   */
  function Unvisited(roads: seq<Road>, visited: set<City>): seq<City>
  {
    if roads == [] then []
    else
      var last := roads[|roads| - 1];
      Unvisited(roads[..|roads| - 1], visited) + (if last.to in visited then [] else [last.to])
  }

  /** Extending the scanned prefix of `roads` by one road appends at most
      that road's target. */
  lemma UnvisitedSnoc(roads: seq<Road>, i: nat, visited: set<City>)
    requires i < |roads|
    ensures Unvisited(roads[..i + 1], visited) ==
            Unvisited(roads[..i], visited) + (if roads[i].to in visited then [] else [roads[i].to])
  {
    assert roads[..i + 1][..i] == roads[..i];
  }

  /** A city is appended exactly when some road leads to it and it is not
      visited. */
  lemma {:induction false} UnvisitedMembers(roads: seq<Road>, visited: set<City>, x: City)
    ensures x in Unvisited(roads, visited) <==> x !in visited && exists rd :: rd in roads && rd.to == x
  {
    if roads != [] {
      var init, last := roads[..|roads| - 1], roads[|roads| - 1];
      assert roads == init + [last];
      UnvisitedMembers(init, visited, x);
    }
  }

  lemma UnvisitedAvoids(roads: seq<Road>, visited: set<City>)
    ensures forall x :: x in Unvisited(roads, visited) ==> x !in visited
  {
    forall x | x in Unvisited(roads, visited) ensures x !in visited {
      UnvisitedMembers(roads, visited, x);
    }
  }

  /** Every road out of a visited city leads to a visited or a queued city. */
  ghost predicate FrontierCovers(g: RoadMap, visited: set<City>, queue: seq<City>)
  {
    forall u, rd :: u in visited && u in g && rd in g[u] ==> rd.to in visited || rd.to in queue
  }

  /** Number of entries of `q` that are in `visited`. */
  function CountIn(q: seq<City>, visited: set<City>): nat
  {
    if q == [] then 0 else (if q[0] in visited then 1 else 0) + CountIn(q[1..], visited)
  }

  lemma {:induction false} CountInAppend(a: seq<City>, b: seq<City>, visited: set<City>)
    ensures CountIn(a + b, visited) == CountIn(a, visited) + CountIn(b, visited)
  {
    if a == [] {
      assert a + b == b;
    } else {
      assert (a + b)[0] == a[0] && (a + b)[1..] == a[1..] + b;
      CountInAppend(a[1..], b, visited);
    }
  }

  lemma {:induction false} CountInNone(q: seq<City>, visited: set<City>)
    requires forall x :: x in q ==> x !in visited
    ensures CountIn(q, visited) == 0
  {
    if q != [] {
      CountInNone(q[1..], visited);
    }
  }

  /**
   * The termination measure of a search loop that dequeues the head of
   * `q` into `visited` and appends only unvisited neighbours: when the head
   * is new, fewer keys stay unvisited; when it is a repeat, fewer queue
   * entries are repeats.
   */
  lemma DequeueMeasure(keys: set<City>, visited: set<City>, q: seq<City>, appended: seq<City>)
    requires q != [] && q[0] in keys
    requires forall x :: x in appended ==> x !in visited + {q[0]}
    ensures q[0] !in visited ==> |keys - (visited + {q[0]})| < |keys - visited|
    ensures q[0] in visited ==> CountIn(q[1..] + appended, visited) < CountIn(q, visited)
  {
    if q[0] !in visited {
      assert keys - (visited + {q[0]}) == (keys - visited) - {q[0]};
    } else {
      CountInAppend(q[1..], appended, visited);
      CountInNone(appended, visited);
    }
  }

  /** One dequeue of a search loop lowers its termination measure. */
  lemma QueueProgress(keys: set<City>, visited0: set<City>, queue0: seq<City>, roads: seq<Road>)
    requires queue0 != [] && queue0[0] in keys
    ensures queue0[0] !in visited0 ==> |keys - (visited0 + {queue0[0]})| < |keys - visited0|
    ensures queue0[0] in visited0 ==>
              CountIn(queue0[1..] + Unvisited(roads, visited0 + {queue0[0]}), visited0 + {queue0[0]}) < CountIn(queue0, visited0)
  {
    var visited := visited0 + {queue0[0]};
    UnvisitedAvoids(roads, visited);
    DequeueMeasure(keys, visited0, queue0, Unvisited(roads, visited));
    if queue0[0] in visited0 {
      assert visited == visited0;
    }
  }

  /** Taking more cities out of `keys` leaves no more behind. */
  lemma DifferenceShrinks(keys: set<City>, a: set<City>, b: set<City>, x: City)
    requires a <= b
    ensures |keys - b| <= |keys - a|
    ensures x in keys && x in b && x !in a ==> |keys - b| < |keys - a|
  {
    SubsetCard(keys - b, keys - a);
    if x in keys && x in b && x !in a {
      SubsetCard(keys - b, (keys - a) - {x});
      assert |(keys - a) - {x}| == |keys - a| - 1;
    }
  }

  lemma SubsetCard(a: set<City>, b: set<City>)
    requires a <= b
    ensures |a| <= |b|
  {
    assert b == a + (b - a);
    assert a * (b - a) == {};
  }
}
