/** `dijkstra_shortest_path` of graph.py: lazy-deletion Dijkstra over a
    frontier of (cost, node, path-prefix) entries and a set of finalized
    nodes, returning the node sequence of a cheapest path or [] when there
    is none. */
module Dijkstra {
  import opened Options
  import opened Graphs
  import opened Paths

  /** Edge attributes as the networkx graph holds them; only `weight` is read. */
  datatype EdgeAttrs = EdgeAttrs(weight: Option<nat>)

  /** `edge_data.get('weight', 1)`. */
  function EdgeCost(attrs: EdgeAttrs): (w: nat)
    ensures attrs.weight.Some? ==> w == attrs.weight.value
    ensures attrs.weight.None? ==> w == 1
  {
    attrs.weight.GetOr(1)
  }

  /** The attribute graph with every edge's cost resolved once: the same
      edges, each costing its weight attribute or 1 when it has none. */
  function Resolve(raw: map<Node, map<Node, EdgeAttrs>>): (g: Adjacency)
    ensures g.Keys == raw.Keys
    ensures forall a, b :: HasEdge(g, a, b) ==> a in raw && b in raw[a]
    ensures forall a, b :: a in raw && b in raw[a] ==> HasEdge(g, a, b) && g[a][b] == EdgeCost(raw[a][b])
  {
    map a | a in raw :: map b | b in raw[a] :: EdgeCost(raw[a][b])
  }

  /** A frontier entry: accumulated cost, node, and the path that led to the
      node (the node itself not included). */
  datatype Entry = Entry(cost: nat, node: Node, path: seq<Node>)

  /** The path an entry stands for: its prefix followed by its node. */
  function Route(e: Entry): seq<Node>
  {
    e.path + [e.node]
  }

  /** The position `heappop` takes an entry from: a cheapest one, and among
      the cheapest the earliest (the tie rule of this model). */
  function MinIndex(q: seq<Entry>): (i: nat)
    requires q != []
    ensures i < |q|
    ensures forall j :: 0 <= j < |q| ==> q[i].cost <= q[j].cost
    ensures forall j :: 0 <= j < i ==> q[i].cost < q[j].cost
  {
    if |q| == 1 then 0
    else
      var k := MinIndex(q[1..]);
      if q[0].cost <= q[1..][k].cost then 0 else k + 1
  }

  /** The frontier without the entry at `i`. */
  function RemoveAt(q: seq<Entry>, i: nat): (r: seq<Entry>)
    requires i < |q|
    ensures |r| == |q| - 1
    ensures forall j :: 0 <= j < |r| ==> r[j] == if j < i then q[j] else q[j + 1]
  {
    q[..i] + q[i + 1..]
  }

  /** A frontier entry is sound: its node is a key (or the start), its route
      is a path from `start` of exactly its cost, and its prefix repeats no
      node and holds only finalized nodes. */
  ghost predicate EntryOk(g: Adjacency, start: Node, visited: set<Node>, e: Entry)
  {
    && (e.node in g || e.node == start)
    && IsPath(g, Route(e), start, e.node)
    && PathCost(g, Route(e)) == e.cost
    && Distinct(e.path)
    && (forall x :: x in e.path ==> x in visited)
  }

  ghost predicate QueueOk(g: Adjacency, start: Node, visited: set<Node>, q: seq<Entry>)
  {
    forall j :: 0 <= j < |q| ==> EntryOk(g, start, visited, q[j])
  }

  /** Every finalized node's recorded distance is a lower bound on the cost
      of every path to it. */
  ghost predicate Settled(g: Adjacency, start: Node, dist: map<Node, nat>)
  {
    forall v, p :: v in dist && IsPath(g, p, start, v) ==> dist[v] <= PathCost(g, p)
  }

  /** The frontier holds an entry for `w` that costs at most `bound`. */
  ghost predicate HasEntry(q: seq<Entry>, w: Node, bound: nat)
  {
    exists j :: 0 <= j < |q| && q[j].node == w && q[j].cost <= bound
  }

  /** Every edge from a finalized node v to a node w that is not finalized is
      covered by an entry for w no dearer than dist[v] plus the edge. */
  ghost predicate Frontier(g: Adjacency, dist: map<Node, nat>, q: seq<Entry>)
  {
    forall v, w :: v in dist && HasEdge(g, v, w) && w !in dist ==> HasEntry(q, w, dist[v] + g[v][w])
  }

  /** `Frontier`, except for the edges leaving `u`. */
  ghost predicate FrontierBut(g: Adjacency, dist: map<Node, nat>, q: seq<Entry>, u: Node)
  {
    forall v, w :: v in dist && v != u && HasEdge(g, v, w) && w !in dist ==> HasEntry(q, w, dist[v] + g[v][w])
  }

  lemma DistinctAppend(p: seq<Node>, x: Node)
    requires Distinct(p) && x !in p
    ensures Distinct(p + [x])
  {
  }

  /** The entry popped for a node not yet finalized is no dearer than any
      path to that node: the path leaves the finalized set along an edge
      that the frontier covers, and the popped entry is a cheapest one. */
  lemma PoppedIsCheapest(g: Adjacency, start: Node, dist: map<Node, nat>, q: seq<Entry>, i: nat)
    requires Settled(g, start, dist) && Frontier(g, dist, q)
    requires dist.Keys == {} ==> q == [Entry(0, start, [])]
    requires dist.Keys != {} ==> start in dist
    requires i < |q| && forall j :: 0 <= j < |q| ==> q[i].cost <= q[j].cost
    requires q[i].node !in dist
    ensures forall p :: IsPath(g, p, start, q[i].node) ==> q[i].cost <= PathCost(g, p)
  {
    forall p | IsPath(g, p, start, q[i].node) ensures q[i].cost <= PathCost(g, p) {
      if start in dist {
        var k := CrossingEdge(g, p, start, q[i].node, dist.Keys);
        assert dist[p[k - 1]] <= PathCost(g, p[..k]);
        assert HasEntry(q, p[k], dist[p[k - 1]] + g[p[k - 1]][p[k]]);
        var j :| 0 <= j < |q| && q[j].node == p[k] && q[j].cost <= dist[p[k - 1]] + g[p[k - 1]][p[k]];
        assert q[i].cost <= q[j].cost;
      } else {
        assert q[i] == Entry(0, start, []);
      }
    }
  }

  /** Recording the popped node's cost keeps every recorded distance a lower
      bound, once the popped cost is one. */
  lemma SettleStep(g: Adjacency, start: Node, dist: map<Node, nat>, u: Node, c: nat)
    requires Settled(g, start, dist)
    requires forall p :: IsPath(g, p, start, u) ==> c <= PathCost(g, p)
    ensures Settled(g, start, dist[u := c])
  {
  }

  /** A route to `end` that no path undercuts is a shortest path, so `end`
      is reachable. */
  lemma FoundShortest(g: Adjacency, start: Node, end: Node, route: seq<Node>)
    requires IsPath(g, route, start, end)
    requires forall p :: IsPath(g, p, start, end) ==> PathCost(g, route) <= PathCost(g, p)
    ensures route != [] && IsShortest(g, route, start, end) && Reachable(g, start, end)
  {
  }

  /** When the frontier is exhausted, no path reaches a node outside the
      finalized set. */
  lemma ExhaustedUnreachable(g: Adjacency, start: Node, end: Node, dist: map<Node, nat>)
    requires Frontier(g, dist, [])
    requires start in dist && end !in dist
    ensures !Reachable(g, start, end)
  {
    if Reachable(g, start, end) {
      var p :| IsPath(g, p, start, end);
      var k := CrossingEdge(g, p, start, end, dist.Keys);
      assert false;
    }
  }

  /** Discarding an entry of an already finalized node keeps the frontier's
      coverage. */
  lemma FrontierDiscard(g: Adjacency, dist: map<Node, nat>, q: seq<Entry>, i: nat)
    requires Frontier(g, dist, q) && i < |q| && q[i].node in dist
    ensures Frontier(g, dist, RemoveAt(q, i))
  {
    var r := RemoveAt(q, i);
    forall v, w | v in dist && HasEdge(g, v, w) && w !in dist
      ensures HasEntry(r, w, dist[v] + g[v][w])
    {
      var j :| 0 <= j < |q| && q[j].node == w && q[j].cost <= dist[v] + g[v][w];
      if j < i { assert r[j] == q[j]; } else { assert r[j - 1] == q[j]; }
    }
  }

  /** Finalizing the popped node u keeps the coverage of every edge that
      does not leave u. */
  lemma FrontierFinalize(g: Adjacency, dist: map<Node, nat>, q: seq<Entry>, i: nat, c: nat)
    requires Frontier(g, dist, q) && i < |q| && q[i].node !in dist
    ensures FrontierBut(g, dist[q[i].node := c], RemoveAt(q, i), q[i].node)
  {
    var u := q[i].node;
    var d := dist[u := c];
    var r := RemoveAt(q, i);
    forall v, w | v in d && v != u && HasEdge(g, v, w) && w !in d
      ensures HasEntry(r, w, d[v] + g[v][w])
    {
      var j :| 0 <= j < |q| && q[j].node == w && q[j].cost <= dist[v] + g[v][w];
      if j < i { assert r[j] == q[j]; } else { assert r[j - 1] == q[j]; }
    }
  }

  /** Pushing an entry for every open neighbour of u completes the coverage. */
  lemma FrontierPushed(g: Adjacency, dist: map<Node, nat>, q: seq<Entry>, r: seq<Entry>, u: Node, route: seq<Node>)
    requires FrontierBut(g, dist, q, u) && u in dist
    requires |q| <= |r| && r[..|q|] == q
    requires forall w :: HasEdge(g, u, w) && w !in dist ==>
               exists j :: |q| <= j < |r| && r[j] == Entry(dist[u] + g[u][w], w, route)
    ensures Frontier(g, dist, r)
  {
    forall v, w | v in dist && HasEdge(g, v, w) && w !in dist
      ensures HasEntry(r, w, dist[v] + g[v][w])
    {
      if v == u {
        var j :| |q| <= j < |r| && r[j] == Entry(dist[u] + g[u][w], w, route);
      } else {
        var j :| 0 <= j < |q| && q[j].node == w && q[j].cost <= dist[v] + g[v][w];
        assert r[j] == q[j];
      }
    }
  }

  ghost predicate DistsAtMost(dist: map<Node, nat>, floor: nat)
  {
    forall v :: v in dist ==> dist[v] <= floor
  }

  ghost predicate CostsAtLeast(q: seq<Entry>, floor: nat)
  {
    forall j :: 0 <= j < |q| ==> floor <= q[j].cost
  }

  /** Removing an entry keeps the remaining entries sound and no cheaper
      than before; removing a cheapest one leaves none cheaper than it. */
  lemma PopKeeps(g: Adjacency, start: Node, visited: set<Node>, q: seq<Entry>, i: nat, floor: nat)
    requires i < |q| && QueueOk(g, start, visited, q) && CostsAtLeast(q, floor)
    ensures QueueOk(g, start, visited, RemoveAt(q, i)) && CostsAtLeast(RemoveAt(q, i), floor)
    ensures (forall j :: 0 <= j < |q| ==> q[i].cost <= q[j].cost) ==> CostsAtLeast(RemoveAt(q, i), q[i].cost)
  {
    var r := RemoveAt(q, i);
    forall j | 0 <= j < |r| ensures EntryOk(g, start, visited, r[j]) && floor <= r[j].cost {
      var k := if j < i then j else j + 1;
      assert r[j] == q[k];
      assert EntryOk(g, start, visited, q[k]);
    }
  }

  /** Finalizing one more node keeps every entry sound. */
  lemma VisitKeeps(g: Adjacency, start: Node, visited: set<Node>, q: seq<Entry>, u: Node)
    requires QueueOk(g, start, visited, q)
    ensures QueueOk(g, start, visited + {u}, q)
  {
    forall j | 0 <= j < |q| ensures EntryOk(g, start, visited + {u}, q[j]) {
      assert EntryOk(g, start, visited, q[j]);
    }
  }

  /** The entries pushed for the neighbours of a finalized node u, reached by
      the sound path `route` of cost `c`, are sound and cost at least `c`. */
  lemma PushKeeps(g: Adjacency, start: Node, visited: set<Node>, q: seq<Entry>, r: seq<Entry>,
                  u: Node, c: nat, route: seq<Node>)
    requires Closed(g) && QueueOk(g, start, visited, q) && CostsAtLeast(q, c)
    requires IsPath(g, route, start, u) && PathCost(g, route) == c
    requires Distinct(route) && forall x :: x in route ==> x in visited
    requires |q| <= |r| && r[..|q|] == q
    requires forall j :: |q| <= j < |r| ==>
               HasEdge(g, u, r[j].node) && r[j] == Entry(c + g[u][r[j].node], r[j].node, route)
    ensures QueueOk(g, start, visited, r) && CostsAtLeast(r, c)
  {
    forall j | 0 <= j < |r| ensures EntryOk(g, start, visited, r[j]) && c <= r[j].cost {
      if j < |q| {
        assert r[j] == q[j];
      } else {
        PathExtend(g, route, start, u, r[j].node);
      }
    }
  }

  /** The inner loop: push an entry for every neighbour of the node `u` just
      finalized that is not finalized, costing `cost` plus the edge and
      carrying `route` as its prefix. Nothing else is pushed, and no
      neighbour gets two entries. */
  method PushNeighbours(g: Adjacency, u: Node, cost: nat, route: seq<Node>, visited: set<Node>, queue: seq<Entry>)
    returns (result: seq<Entry>)
    requires u in g
    ensures |queue| <= |result| && result[..|queue|] == queue
    ensures forall w :: HasEdge(g, u, w) && w !in visited ==>
              exists j :: |queue| <= j < |result| && result[j] == Entry(cost + g[u][w], w, route)
    ensures forall j :: |queue| <= j < |result| ==>
              && HasEdge(g, u, result[j].node) && result[j].node !in visited
              && result[j] == Entry(cost + g[u][result[j].node], result[j].node, route)
    ensures forall j, k :: |queue| <= j < k < |result| ==> result[j].node != result[k].node
  {
    var links := g[u];
    var pending := links.Keys;
    result := queue;
    while pending != {}
      invariant pending <= links.Keys
      invariant |queue| <= |result| && result[..|queue|] == queue
      invariant forall w :: w in links && w !in pending && w !in visited ==>
                  exists j :: |queue| <= j < |result| && result[j] == Entry(cost + g[u][w], w, route)
      invariant forall j :: |queue| <= j < |result| ==>
                  && HasEdge(g, u, result[j].node) && result[j].node !in visited
                  && result[j] == Entry(cost + g[u][result[j].node], result[j].node, route)
      invariant forall j :: |queue| <= j < |result| ==> result[j].node !in pending
      invariant forall j, k :: |queue| <= j < k < |result| ==> result[j].node != result[k].node
      decreases pending
    {
      var neighbour :| neighbour in pending;
      if neighbour !in visited {
        ghost var shorter := result;
        result := result + [Entry(cost + links[neighbour], neighbour, route)];
        assert result[..|shorter|] == shorter;
        assert result[..|queue|] == queue by {
          assert result[..|queue|] == shorter[..|queue|];
        }
        forall w | w in links && w !in pending - {neighbour} && w !in visited
          ensures exists j :: |queue| <= j < |result| && result[j] == Entry(cost + g[u][w], w, route)
        {
          if w == neighbour {
            assert result[|shorter|] == Entry(cost + g[u][w], w, route);
          } else {
            var j :| |queue| <= j < |shorter| && shorter[j] == Entry(cost + g[u][w], w, route);
            assert result[j] == shorter[j];
          }
        }
      }
      pending := pending - {neighbour};
    }
  }

  /** The loop invariant of `dijkstra_shortest_path`: `visited` are the
      finalized nodes, each with its distance in `dist`; `end` is not among
      them; until the first pop the frontier is the start entry, afterwards
      `start` is finalized; every entry is sound, every distance is
      a lower bound, the frontier covers every edge out of the finalized
      set; and no entry is cheaper than `floor`, the cost of the last node
      finalized, which no distance exceeds (popped costs never decrease). */
  ghost predicate Invariant(g: Adjacency, start: Node, end: Node, visited: set<Node>,
                            dist: map<Node, nat>, floor: nat, q: seq<Entry>)
  {
    && visited == dist.Keys && visited <= g.Keys + {start}
    && end !in visited
    && (visited == {} ==> q == [Entry(0, start, [])])
    && (visited != {} ==> start in visited)
    && QueueOk(g, start, visited, q)
    && Settled(g, start, dist)
    && Frontier(g, dist, q)
    && CostsAtLeast(q, floor)
    && DistsAtMost(dist, floor)
  }

  /** Popping an entry of a node already finalized and discarding it keeps
      the invariant. */
  lemma DiscardStep(g: Adjacency, start: Node, end: Node, visited: set<Node>,
                    dist: map<Node, nat>, floor: nat, q: seq<Entry>, i: nat)
    requires Invariant(g, start, end, visited, dist, floor, q)
    requires i < |q| && q[i].node in visited
    ensures Invariant(g, start, end, visited, dist, floor, RemoveAt(q, i))
  {
    PopKeeps(g, start, visited, q, i, floor);
    FrontierDiscard(g, dist, q, i);
  }

  /** Popping a cheapest entry of a node u not yet finalized and finalizing
      u: the entry's route is a shortest path to u without repeated nodes,
      and everything the invariant says holds again except the coverage of
      the edges leaving u and, when u is `end`, that `end` is not
      finalized. */
  lemma FinalizeStep(g: Adjacency, start: Node, end: Node, visited: set<Node>,
                     dist: map<Node, nat>, floor: nat, q: seq<Entry>, i: nat)
    requires Invariant(g, start, end, visited, dist, floor, q)
    requires i < |q| && forall j :: 0 <= j < |q| ==> q[i].cost <= q[j].cost
    requires q[i].node !in visited
    ensures var u, c := q[i].node, q[i].cost;
      && u in g.Keys + {start}
      && (start == end ==> Route(q[i]) == [start])
      && IsPath(g, Route(q[i]), start, u) && PathCost(g, Route(q[i])) == c
      && Distinct(Route(q[i])) && (forall x :: x in Route(q[i]) ==> x in visited + {u})
      && (forall p :: IsPath(g, p, start, u) ==> c <= PathCost(g, p))
      && visited + {u} == dist[u := c].Keys && start in visited + {u}
      && QueueOk(g, start, visited + {u}, RemoveAt(q, i))
      && Settled(g, start, dist[u := c])
      && FrontierBut(g, dist[u := c], RemoveAt(q, i), u)
      && CostsAtLeast(RemoveAt(q, i), c)
      && DistsAtMost(dist[u := c], c)
  {
    var u, c := q[i].node, q[i].cost;
    assert EntryOk(g, start, visited, q[i]);
    PopKeeps(g, start, visited, q, i, floor);
    VisitKeeps(g, start, visited, RemoveAt(q, i), u);
    PoppedIsCheapest(g, start, dist, q, i);
    SettleStep(g, start, dist, u, c);
    FrontierFinalize(g, dist, q, i, c);
    DistinctAppend(q[i].path, u);
  }

  /** After the entries for the open neighbours of the finalized node u are
      pushed, the invariant holds again. */
  lemma PushStep(g: Adjacency, start: Node, end: Node, visited: set<Node>,
                 dist: map<Node, nat>, c: nat, q: seq<Entry>, r: seq<Entry>, u: Node, route: seq<Node>)
    requires Closed(g) && u in visited && u != end && u in dist && dist[u] == c
    requires IsPath(g, route, start, u) && PathCost(g, route) == c
    requires Distinct(route) && forall x :: x in route ==> x in visited
    requires visited == dist.Keys && visited <= g.Keys + {start} && start in visited
    requires end !in visited - {u}
    requires QueueOk(g, start, visited, q) && Settled(g, start, dist)
    requires FrontierBut(g, dist, q, u) && CostsAtLeast(q, c)
    requires DistsAtMost(dist, c)
    requires |q| <= |r| && r[..|q|] == q
    requires forall w :: HasEdge(g, u, w) && w !in visited ==>
               exists j :: |q| <= j < |r| && r[j] == Entry(c + g[u][w], w, route)
    requires forall j :: |q| <= j < |r| ==>
               HasEdge(g, u, r[j].node) && r[j] == Entry(c + g[u][r[j].node], r[j].node, route)
    ensures Invariant(g, start, end, visited, dist, c, r)
  {
    FrontierPushed(g, dist, q, r, u, route);
    PushKeeps(g, start, visited, q, r, u, c, route);
  }

  /** A popped cheapest entry for `end`, not yet finalized, carries a
      shortest path to `end` without repeated nodes, and it is [start] when
      `start` is `end`. */
  lemma FoundEnd(g: Adjacency, start: Node, end: Node, visited: set<Node>,
                 dist: map<Node, nat>, floor: nat, q: seq<Entry>, i: nat)
    requires Invariant(g, start, end, visited, dist, floor, q)
    requires i < |q| && forall j :: 0 <= j < |q| ==> q[i].cost <= q[j].cost
    requires q[i].node == end && end !in visited
    ensures Route(q[i]) != [] && Reachable(g, start, end)
    ensures IsShortest(g, Route(q[i]), start, end) && Distinct(Route(q[i]))
    ensures start == end ==> Route(q[i]) == [start]
  {
    FinalizeStep(g, start, end, visited, dist, floor, q, i);
    FoundShortest(g, start, end, Route(q[i]));
  }

  /** Lines 82-90 for a popped cheapest entry whose node u is neither
      finalized nor `end`: finalize u and push its open neighbours; the
      invariant holds again for the new frontier, with u's distance recorded
      and u's cost as the new floor. */
  method ExpandNode(g: Adjacency, start: Node, end: Node, visited: set<Node>,
                    ghost dist: map<Node, nat>, ghost floor: nat, queue: seq<Entry>, i: nat)
    returns (result: seq<Entry>, ghost dist': map<Node, nat>, ghost floor': nat)
    requires Closed(g) && (start in g || start == end)
    requires Invariant(g, start, end, visited, dist, floor, queue)
    requires i < |queue| && forall j :: 0 <= j < |queue| ==> queue[i].cost <= queue[j].cost
    requires queue[i].node !in visited && queue[i].node != end
    ensures Invariant(g, start, end, visited + {queue[i].node}, dist', floor', result)
    ensures dist' == dist[queue[i].node := queue[i].cost]
    ensures floor <= floor' == queue[i].cost
  {
    FinalizeStep(g, start, end, visited, dist, floor, queue, i);
    var entry := queue[i];
    var u := entry.node;
    var route := entry.path + [u];
    var rest := RemoveAt(queue, i);
    result := PushNeighbours(g, u, entry.cost, route, visited + {u}, rest);
    dist' := dist[u := entry.cost];
    floor' := entry.cost;
    PushStep(g, start, end, visited + {u}, dist', entry.cost, rest, result, u, route);
  }

  lemma SubsetCard(a: set<Node>, b: set<Node>)
    requires a <= b
    ensures |a| <= |b|
    decreases a
  {
    if a != {} {
      var x :| x in a;
      SubsetCard(a - {x}, b - {x});
    }
  }

  /** Before the first pop the invariant holds. */
  lemma InitialInvariant(g: Adjacency, start: Node, end: Node)
    ensures Invariant(g, start, end, {}, map[], 0, [Entry(0, start, [])])
  {
    assert Route(Entry(0, start, [])) == [start];
  }

  /** With the frontier exhausted and `end` never finalized, `end` is
      unreachable, and so it is not `start`. */
  lemma NotFound(g: Adjacency, start: Node, end: Node, visited: set<Node>,
                 dist: map<Node, nat>, floor: nat)
    requires Invariant(g, start, end, visited, dist, floor, [])
    ensures !Reachable(g, start, end) && start != end
  {
    ExhaustedUnreachable(g, start, end, dist);
  }

  /** `dijkstra_shortest_path(graph, start, end)`. Weights are naturals, so
      the non-negativity the early return relies on holds by typing. The
      graph is closed (every neighbour is a node, as in networkx), and
      `start` is a node unless it is `end` itself, which is returned before
      the graph is consulted. */
  method ShortestPath(g: Adjacency, start: Node, end: Node) returns (path: seq<Node>)
    requires Closed(g)
    requires start in g || start == end
    ensures path == [] <==> !Reachable(g, start, end)
    ensures path != [] ==> IsShortest(g, path, start, end) && Distinct(path)
    ensures start == end ==> path == [start]
  {
    var queue := [Entry(0, start, [])];
    var visited: set<Node> := {};
    ghost var dist: map<Node, nat> := map[];
    ghost var floor: nat := 0;
    ghost var universe := g.Keys + {start};
    InitialInvariant(g, start, end);
    while queue != []
      invariant Invariant(g, start, end, visited, dist, floor, queue)
      invariant visited <= universe && |visited| <= |universe|
      decreases |universe| - |visited|, |queue|
    {
      var i := MinIndex(queue);
      var entry := queue[i];
      if entry.node in visited {
        DiscardStep(g, start, end, visited, dist, floor, queue, i);
        queue := RemoveAt(queue, i);
      } else {
        var u := entry.node;
        var route := entry.path + [u];
        if u == end {
          FoundEnd(g, start, end, visited, dist, floor, queue, i);
          return route;
        }
        assert EntryOk(g, start, visited, queue[i]);
        queue, dist, floor := ExpandNode(g, start, end, visited, dist, floor, queue, i);
        visited := visited + {u};
        SubsetCard(visited, universe);
      }
    }
    NotFound(g, start, end, visited, dist, floor);
    return [];
  }
}
