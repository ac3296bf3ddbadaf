# Traveling Ethiopian Problem — the three path searches

The program answers route queries over a road map of Ethiopian cities. The
map is an adjacency list: each city goes to a list of `(neighbour, distance)`
pairs. Three searches run over it:

- `dfs`: recursive depth first. It grows the caller's visited set in place
  and returns the first path it finds, or `[]`.
- `bfs`: a FIFO search. A city is marked visited when it is dequeued. When
  the goal is dequeued, the search returns the predecessor chain: goal
  first, start last, not reversed. It returns `None` when the queue runs
  dry.
- `weighted_bfs`: a FIFO cost-relaxation search over a table
  `city -> (predecessor, cost)`. Afterwards it walks the predecessors back
  from the goal, reverses them, and returns the path with the goal's cost.

The model is imperative, like the program. Each search is a method. `Dfs`
calls itself from a loop over the neighbours. `Bfs` runs a `while queue`
loop, and `WeightedBfs` runs its `while queue` loop in `Search` before
rebuilding the path. The body of each `while queue` loop is its own method:
`Expand` (a dequeued city other than the goal) and `Visit`. The visited set,
queue and dictionaries are local `set`, `seq` and `map` variables that the
loops reassign. Each inner loop over a city's neighbours is its own method:
`RecordParents` and `Relax`. So is each path-rebuilding loop: `ParentChain`
and `PredecessorPath`. Each such method is proved against the next state it
produces.

- `dfs` changes the caller's set in place. The model passes that set in as
  `visited` and hands the grown set back as `visitedOut`.
- Termination of the `while queue` loops is proved with a lexicographic
  measure. The first part is the number of graph cities still unvisited.
  The second is the number of queue entries that are already visited.
- Termination of each predecessor walk is proved with a ghost `rank`. It
  numbers cities in the order they were first dequeued. Every predecessor
  link points to a lower number.

Files:

- `graph.dfy` (module `Graph`): cities, roads, walks, reachability, and the
  lemmas shared by the searches.
- `dfs.dfy` (`DepthFirst`).
- `bfs.dfy` (`BreadthFirst`).
- `weighted_bfs.dfy` (`WeightedBreadthFirst`).
- `roads.dfy` (`Ethiopia`): the program's own road table, as a fixture. Its
  one lemma discharges the `Closed` precondition of the searches for it.

Where the code differs from the usual description of these algorithms, the
model follows the code:

- `bfs` overwrites a neighbour's parent entry every time it sees the
  neighbour unvisited. A later-dequeued city can therefore become the
  parent. First discovery does not win.
- `bfs` returns the chain goal first, with no reversal.
- `weighted_bfs` enqueues every unvisited neighbour, whether or not its cost
  improved.
- If the goal is unreachable, `weighted_bfs` returns `[start, goal]` with an
  infinite cost, not "no path". Its predecessor walk always ends: the model
  proves it.
- Neither `bfs` nor `weighted_bfs` is optimal: not in hops, not in cost.

## Model

| member | source | states |
|---|---|---|
| DepthFirst.Dfs | main.py:42-59 | `visited` only grows and only by graph cities. `node == goal` gives `[node]`. A non-empty result is a walk from `node` to `goal` through visited cities. When `node` was not already visited, the result has no repeats and avoids the entry set. An empty result means the goal cannot be reached without passing through the entry set. When `node` was not already visited, the converse holds too: the result is empty exactly when the goal is unreachable that way. |
| DepthFirst.Prepend | main.py:53-57 | Prefixing `node` to a path found from one of its neighbours gives a walk inside the visited set. When `node` is new, it stays repeat-free, avoids the entry set and shows the goal reachable. |
| DepthFirst.Exhausted | main.py:51-59 | Suppose every neighbour is visited and no recursive call succeeded. Then no road leaves the newly visited cities except into the entry set, and the goal is unreachable from `node`. |
| DepthFirst.StillExpanded | main.py:51-56 | A failed recursive call keeps every city visited so far in the loop fully expanded. |
| BreadthFirst.Bfs | main.py:62-86 | `start == goal` gives `Some([start])`. A result runs goal first and start last. Each city in it has a road to it from the city after it, and no city repeats. The result is `None` exactly when the goal is unreachable. |
| BreadthFirst.Initial | main.py:64-66 | The starting state satisfies the loop invariant: only `start` queued, nothing visited, no parent entries. |
| BreadthFirst.Expand | main.py:68-86 | Dequeuing a city other than the goal marks it visited. Its unvisited neighbours are appended in order and take it as their parent. Every other parent entry is unchanged. The loop invariant holds afterwards, and the termination measure falls. |
| BreadthFirst.RecordParents | main.py:83-86 | The unvisited neighbours are appended to the queue in adjacency-list order. Each one's parent entry becomes the dequeued city. Every other entry is unchanged. |
| BreadthFirst.ParentChain | main.py:73-81 | The chain starts at the dequeued city and follows the parent map until it reaches a city with no entry. It has no repeats. |
| BreadthFirst.Marked | main.py:69-70 | Marking the dequeued city visited numbers it after every earlier city. Each recorded parent of a visited city still has a lower number. |
| BreadthFirst.Found | main.py:72-81 | When the goal is dequeued, the parent chain ends at `start` and is a walk read backwards. `start == goal` gives `[start]`. |
| BreadthFirst.Step | main.py:68-86 | Dequeuing a city other than the goal and recording its neighbours keeps the loop invariant. In it, parent entries point at visited cities over real roads and move back in dequeue order. Every visited city except `start`, and every queued one, has a parent. Every road out of a visited city leads to a visited or a queued city. |
| BreadthFirst.Dequeued | main.py:83-86 | Each new parent entry points at the dequeued city, which has a road to the entry. Entries for visited cities are unchanged. |
| WeightedBreadthFirst.WeightedBfs | main.py:89-123 | The path runs from `start` to `goal` along predecessor entries. The returned cost is the goal's entry. `start == goal` gives `([start], 0)`. A finite cost comes with a repeat-free walk whose road distances add up to it. An infinite cost gives exactly `[start, goal]`, and happens exactly when the goal is unreachable. |
| WeightedBreadthFirst.Search | main.py:91-109 | When the queue is empty, the table still has one entry per city and `start` keeps `(start, 0)`. `start` is visited, and no road leaves the visited cities. Every visited city has a finite cost. The loop invariant holds with nothing queued. |
| WeightedBreadthFirst.Initial | main.py:91-94 | The starting table satisfies the loop invariant: every entry `(start, inf)` except `start` itself at `(start, 0)`, with only `start` queued. |
| WeightedBreadthFirst.Visit | main.py:96-109 | One pass of the loop marks the head visited. It appends the head's unvisited neighbours and relaxes their entries with the head's cost, as `Relax` states. The loop invariant holds afterwards, and the termination measure falls. |
| WeightedBreadthFirst.Relax | main.py:101-109 | Unvisited neighbours are enqueued unconditionally, in order. Costs never rise. An entry changes only for an unvisited city, only to a strictly smaller cost, and then points at the dequeued city across one of its roads. Every such road has been tried. |
| WeightedBreadthFirst.RelaxedOne | main.py:102-109 | One test-and-update of a neighbour's entry keeps both facts of `Relax`. |
| WeightedBreadthFirst.PredecessorPath | main.py:112-122 | The walk starts at `goal`, stops at `start`, and its reversal runs from `start` to `goal`. Each city is the recorded predecessor of the next, and no city repeats. |
| WeightedBreadthFirst.WalkOn | main.py:117-119 | One predecessor step keeps the walk repeat-free. It moves to a city of strictly smaller termination measure: `start` lowest, then visited cities by first-dequeue number, unvisited ones highest. |
| WeightedBreadthFirst.ReversedChain | main.py:121-122 | Reversing the collected chain puts `start` first and `goal` last. Each city is the predecessor of the next. |
| WeightedBreadthFirst.Marked | main.py:97-99 | The dequeued city has a finite cost. Marking it numbers it after every earlier city. |
| WeightedBreadthFirst.Step | main.py:96-109 | One dequeue and relaxation keeps the loop invariant. In it, `start` keeps `(start, 0)`. Visited and queued cities have finite costs. An entry still at infinity points at `start`. A finite entry points at a visited city across a road whose distance is the cost difference. |
| WeightedBreadthFirst.CostsKept | main.py:99-109 | The cost-table part of the invariant survives a dequeue. It is unchanged on visited cities and keeps `start` at `(start, 0)`. |
| WeightedBreadthFirst.QueueFinite | main.py:103-106 | Every city enqueued by a relaxation has a finite cost. |
| WeightedBreadthFirst.SoundKept | main.py:105-109 | An updated entry points at the dequeued city across the road just used. An untouched entry keeps its justification. |
| WeightedBreadthFirst.Ranked | main.py:96-119 | When the queue is empty, every predecessor entry points at a city the reconstruction reaches later, so the walk back to `start` ends. |
| WeightedBreadthFirst.Telescope | main.py:104-109 | Along a predecessor chain from `start`, the distances of the roads add up to the last city's table cost. |
| WeightedBreadthFirst.Reconstructed | main.py:112-123 | A finite goal cost means the rebuilt path is a walk whose distances add up to that cost. An infinite goal cost means the path is `[start, goal]` and the goal is unreachable, and the converse holds. |
| Graph.UnvisitedMembers | main.py:83-86 | A city is appended by the neighbour loop exactly when a road leads to it and it is unvisited. |
| Graph.UnvisitedSnoc | main.py:83-86 | Scanning one more road appends its target when, and only when, that target is unvisited. |
| Graph.FrontierAfterDequeue | main.py:68-86 | Dequeuing the head into the visited set and appending its unvisited neighbours keeps every road out of a visited city pointing at a visited or queued city. |
| Graph.ShapeKept | main.py:96-103 | The same step keeps visited and queued cities inside the graph, keeps `start` visited, and keeps the first-dequeue numbering in step with the visited set. |
| Graph.QueueProgress | main.py:68-70 | A dequeue lowers the lexicographic measure. A new city leaves fewer cities unvisited. A repeat leaves fewer visited cities queued. |
| Graph.DequeueMeasure | main.py:96-103 | The two halves of that measure, for any appended list of unvisited cities. |
| Graph.DrainedIsUnreachable | main.py:68-86 | Once the queue is empty, no city outside the visited set is reachable from a visited one. |
| Graph.TrappedIsUnreachable | main.py:51-59 | A set of cities that no road leaves, except into the avoided set, keeps every walk that avoids that set inside. |
| Graph.WalkStaysInside | main.py:51-59 | A walk that starts inside such a set and avoids the avoided set never leaves the first set. |
| Graph.Reverse | main.py:122 | The in-place reversal of the collected path: same length, element `i` is element `n-1-i` of the input. |
| Graph.ReverseBackwardWalk | main.py:73-81 | A chain in which each city has a road to it from the next one is, reversed, a walk from start to goal, and stays repeat-free. |
| Ethiopia.RoadsClosed | main.py:30-39 | The program's road table names only cities that are its own keys, so all three searches can run on it. |

## Left out

- Plotting with networkx and matplotlib (`draw_graph_with_path`,
  main.py:126-156): a foreign library, display only.
- The console menus and prompts (main.py:159-230): input and output only.
- The debug `print(path)` in `weighted_bfs` (main.py:116): output only.
- The problem-statement docstring (main.py:5-26): it is not code.
- `cities` (main.py:28-29): nothing reads it.
- Hop-minimality of `bfs` and cost-minimality of `weighted_bfs`: the code
  does not guarantee either, so no member claims them.
- The floating-point infinity of the initial entries: modelled as the `Inf` constructor of `Cost`, not as
  floating-point arithmetic. Distances are natural numbers.
- `while parent:` in `bfs` stops on a falsy city name. The model stops only
  when the parent lookup finds no entry, so it assumes city names are
  non-empty.
- Missing keys raise `KeyError` in the program. The model instead requires
  that every neighbour is a key (`Closed`), that the start is a key, and,
  for `weighted_bfs`, that the goal is a key.
- Aliasing of the caller's visited set in `dfs`: the model threads the set
  in and out.
- The deques are modelled as sequences. `popleft` is `queue[1..]` and
  `append` is `queue + [x]`.
- WeightedBreadthFirst.Search: its contract ends with the loop invariant at
  exit. What that invariant means for the caller is stated by `Ranked`,
  `Telescope` and `Reconstructed`, which `WeightedBfs` calls.
