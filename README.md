# GreenAI graph core in Dafny

This project models the core of GreenAI's `graph.py` and proves properties of
the model. The core has three parts:

- **The `Graph` adjacency store.** It maps each node to a map from neighbour
  to weight, and is either directed or undirected. In undirected mode every
  insertion also writes the mirror edge, both at construction
  (`make_undirected`) and on later `connect` calls. `get` registers an
  unknown node as a side effect, and `nodes()` is the union of the source
  keys and the neighbours.
- **`dijkstra_shortest_path`.** This is Dijkstra's algorithm with lazy
  deletion. The frontier holds (cost, node, path prefix) entries, and a
  visited set records finalized nodes. It returns as soon as `end` is
  finalized, and returns `[]` when the frontier runs dry.
- **The redistribution planner inside `show_map`.** It classifies every node
  at one simulation step as surplus, deficit, balanced or unknown. It lists
  the surplus and the deficit nodes. Then, for every (surplus, deficit) pair
  joined by a shortest path, it emits an instruction: send from the surplus
  node toward the path's second node, with a magnitude of
  `min(0.5, surplus / 500)`.

Files and modules:

| file | module | contents |
|---|---|---|
| `options.dfy` | `Options` | the `Option` datatype |
| `graph.dfy` | `Graphs` | the adjacency type and its pure update functions, the symmetric-closure specification of `make_undirected`, and the class `Graph` |
| `paths.dfy` | `Paths` | paths, their cost, reachability and shortest paths |
| `dijkstra.dfy` | `Dijkstra` | weight resolution, the frontier, the loop invariant with its step lemmas, and `ShortestPath` |
| `redistribution.dfy` | `Redistribution` | classification, the surplus and deficit lists, the surplus amount, the magnitude and the planner |

Modelling choices:

- Nodes are strings.
- Weights are naturals, so the search's non-negativity precondition holds by
  typing.
- An edge given without a `weight` attribute is resolved to weight 1 once, at
  ingestion (`Dijkstra.Resolve`), and not at every traversal.
- The frontier is a sequence. A pop takes the first entry of minimum cost.
- Readings are exact reals. `None` stands for a missing value (NaN), with
  which every comparison is false.

## Model

| member | source | states |
|---|---|---|
| Graphs.EdgeWeight | graph.py:57 | `links.get(b)`: the weight of a→b when that edge exists, and None exactly when it does not |
| Graphs.SetEdge | graph.py:45-47 | `setdefault(A, {})[B] = d`: A becomes a key, A→B has weight d, and every other (source, neighbour) entry is unchanged |
| Graphs.Register | graph.py:53 | `setdefault(a, {})`: a becomes a key holding its previous links (or `{}`), and no edge changes |
| Graphs.NodesOf | graph.py:59-64 | a node is listed exactly when it is a source key or the neighbour of some key |
| Graphs.RegisterNodes | graph.py:53-64 | registering a adds exactly a to the node set |
| Graphs.SetEdgeNodes | graph.py:47-64 | inserting a→b adds exactly a and b to the node set |
| Graphs.ConnectBothSymmetric | graph.py:38-43 | writing a→b and b→a with the same weight keeps a symmetric adjacency symmetric |
| Graphs.MirrorOfSymmetric | graph.py:32-36 | the symmetric closure of an already symmetric adjacency is that adjacency, so `make_undirected` changes nothing on one |
| Graphs.MirrorStep | graph.py:34-36 | mirroring every edge out of one more key keeps the progress invariant of the outer loop: edges only grow, values come from an original edge in one direction, and every edge out of a finished key is mirrored |
| Graphs.MirrorDone | graph.py:34 | once every original key is done, the result is the symmetric closure of the original |
| Graphs.MirrorSomeStep | graph.py:35-36 | one `connect1(b, a, dist)` of the inner loop extends the mirrored set by b, and a→b still has its original weight when it is read |
| Graphs.Graph.constructor | graph.py:26-30 | with `graph_dict` defaulting to empty and `directed` to true, a directed graph holds the given adjacency; an undirected one holds its symmetric closure and is symmetric |
| Graphs.Graph.MakeUndirected | graph.py:32-36 | the new adjacency is the symmetric closure of the old one: same nodes, an edge wherever either direction had one, each weight taken from one of the two directions, and symmetric |
| Graphs.Graph.MirrorKey | graph.py:35-36 | the inner loop over `graph_dict[a]` mirrors exactly the edges out of a |
| Graphs.Graph.Connect | graph.py:38-43 | sets a→b to d (1 by default), and b→a to d too when undirected; nothing else changes; a symmetric undirected graph stays symmetric |
| Graphs.Graph.Connect1 | graph.py:45-47 | sets a→b to d in one direction only; nothing else changes |
| Graphs.Graph.Get | graph.py:49-55 | returns a's links, or `{}` for an unknown a; the only state change is registering a, and a symmetric graph stays symmetric |
| Graphs.Graph.GetWeight | graph.py:49-57 | returns the weight of a→b, or None when there is no such edge; the only state change is registering a, and a symmetric graph stays symmetric |
| Graphs.Graph.Nodes | graph.py:59-64 | the node set is the union of the keys and of all neighbours |
| Graphs.UndirectedGraph | graph.py:67-69 | builds a fresh undirected graph holding the symmetric closure of the input |
| Paths.PathExtend | graph.py:83-90 | appending a neighbour to a path gives a path whose cost grows by that edge's weight |
| Paths.PrefixCost | graph.py:83 | a prefix of a path never costs more than the path itself |
| Paths.CrossingEdge | graph.py:88-90 | a path that leaves a node set has a first edge out of it, and the prefix up to that edge costs no more than the whole path |
| Dijkstra.EdgeCost | graph.py:90 | `edge_data.get(weight, 1)`: the given weight, or 1 when it is absent |
| Dijkstra.Resolve | graph.py:88-90 | the resolved adjacency has the same keys and edges as the raw one, each weighted by its cost |
| Dijkstra.MinIndex | graph.py:80 | the popped entry has minimum cost, and it is the first such entry |
| Dijkstra.RemoveAt | graph.py:80 | the frontier after a pop holds every other entry, in order |
| Dijkstra.PushNeighbours | graph.py:88-90 | keeps the existing entries and appends an entry (cost + weight, w, path) for each unvisited neighbour w, nothing else, and no two for the same neighbour |
| Dijkstra.PoppedIsCheapest | graph.py:80-82 | the cheapest entry for an unfinalized node costs no more than any path to that node |
| Dijkstra.ExhaustedUnreachable | graph.py:79-92 | when no frontier entry remains, a path to a node that was never finalized would cross an uncovered edge, so no such path exists |
| Dijkstra.FinalizeStep | graph.py:80-83 | finalizing a cheapest unvisited entry records its cost as a true distance; the remaining entries stay sound and no cheaper than it |
| Dijkstra.PushStep | graph.py:88-90 | after the pushes, the loop invariant holds again with the new node finalized |
| Dijkstra.DiscardStep | graph.py:80-81 | discarding an entry whose node is already visited keeps the loop invariant |
| Dijkstra.FoundEnd | graph.py:85-86 | the route of the popped `end` entry is a shortest path that repeats no node, and it is `[start]` when start is end |
| Dijkstra.NotFound | graph.py:79-92 | an empty frontier without `end` finalized means `end` is unreachable and differs from `start` |
| Dijkstra.ExpandNode | graph.py:81-90 | finalizing a popped node and pushing its neighbours keeps the loop invariant; the new floor, which is the popped cost, is not below the old one, so popped costs never decrease |
| Dijkstra.ShortestPath | graph.py:72-92 | returns `[]` exactly when `end` is unreachable; otherwise a path from start to end that follows edges, repeats no node and costs no more than any other path; `[start]` when start is end |
| Redistribution.Classify | graph.py:97 | the four colours are exclusive and total: surplus iff production > consumption, deficit iff <, balanced iff ==, grey iff a value is missing |
| Redistribution.NodeColors | graph.py:97 | one colour for every node that has data, and no other keys |
| Redistribution.Select | graph.py:138-139 | a node is listed exactly when it is in `G.nodes()` and has the requested status; the list is no longer than the node list |
| Redistribution.SurplusDeficitDisjoint | graph.py:138-139 | no node is in both lists; a listed surplus node has production > consumption, a listed deficit node production < consumption |
| Redistribution.SurplusAmount | graph.py:142 | never negative; the exact excess for a surplus reading; positive exactly for a surplus reading |
| Redistribution.Magnitude | graph.py:150 | at most 0.5; non-negative for a non-negative surplus and positive for a positive one; surplus / 500 below the cap and 0.5 from the cap on |
| Redistribution.MagnitudeMonotonic | graph.py:150 | a larger surplus never gives a smaller magnitude |
| Redistribution.AlignedAppend | graph.py:141-152 | concatenating instruction lists matched to pair lists gives a matched list |
| Redistribution.RowMembers | graph.py:144-147 | one surplus node's row holds exactly the pairs with a deficit node reachable from it |
| Redistribution.RoutedPairsMembers | graph.py:141-147 | a pair gets an instruction exactly when its origin is a surplus node, its destination a deficit node, and the destination is reachable |
| Redistribution.PlanFacts | graph.py:141-150 | every instruction comes from a surplus node, its first hop is a neighbour of that node, and its magnitude lies in (0, 0.5] |
| Redistribution.RouteFrom | graph.py:144-150 | for one surplus node, one instruction per reachable deficit node in order, toward the second node of a shortest path, with that node's magnitude |
| Redistribution.Plan | graph.py:137-150 | the instructions match the routed (surplus, deficit) pairs position by position, in loop order |

## Left out

- Rendering in `show_map` (graph.py:95-135, 151-164) is left out: drawing, labels, arrows and the legend. The planner returns its instructions instead of annotating a figure.
- The GeoJSON read and its `try/except` (graph.py:112-117) are left out because they are file I/O.
- The conversion `nx.Graph(graph_dict)` (graph.py:95) is left out. The planner takes an adjacency in which every neighbour is a node; networkx is not part of this model.
- Petitcodesympa.py (fetching weather records, CSV and DataFrame handling, float scoring, Excel export) is not part of this model. It is I/O and library glue.
- Graphs.Graph.constructor: `graph_dict=None` is taken as the empty adjacency, and the caller's dict is copied, not shared. Aliasing is not modelled: in the source the graph mutates the dict it was given, and `get(a)` returns the live inner dict.
- Graphs.Graph.MakeUndirected: Python dicts iterate in insertion order; the model picks keys and neighbours in an unspecified order. When a→b and b→a both exist with different weights, the surviving weight depends on that order, so the contract only says it comes from one of the two directions.
- Graphs.Graph.Nodes: it returns a set, not a list, because the order of `list(set)` is unspecified in the source.
- Weights are naturals. The "any object" weights of the docstring (graph.py:23-24) are left out, since optimality needs ordered, additive, non-negative costs.
- Dijkstra.MinIndex: heapq's heap layout and its tuple tie-break (cost, then node label, then path) are not modelled. The model pops the first entry of minimum cost; the optimality results hold for any minimum-cost choice.
- Dijkstra.ShortestPath: the `weight='weight'` parameter (graph.py:72) is not modelled; `EdgeAttrs` holds the one attribute named `weight`, which is the only name the source ever passes (line 145).
- Dijkstra.ShortestPath: it requires every neighbour to be a key, which networkx guarantees. It also requires `start` to be a node unless it equals `end`; otherwise `graph[node]` raises KeyError in the source.
- Readings are exact reals, not floats. NaN is modelled as a missing value, on which every comparison is false and `max(0, nan)` is 0. Rounding is not modelled.
- Redistribution.Plan and Redistribution.NodeColors: they require data at `step` for every node, since the source raises KeyError or IndexError otherwise (lines 97, 138-142). The source's own comment says grey means "no data", but only a NaN reaches the grey branch; a missing entry raises instead.
- Redistribution.Plan: `arrow_length` is computed but never passed to `plt.annotate` (graph.py:150-152). The model carries it as the instruction's magnitude.
- Redistribution.RouteFrom: it requires the origin not to be among the deficit nodes. In the source this holds because surplus and deficit are exclusive, and otherwise `path[1]` would not exist.
- The legend (graph.py:159-160) labels the white marker "No data", but white marks balanced nodes (line 97), and grey marks missing data. The legend is rendering and is not modelled.
