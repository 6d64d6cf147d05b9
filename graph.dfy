/** The adjacency store of graph.py: a map from each source node to the map of
    its neighbours and the weight of the edge to each, in a directed or an
    undirected mode. */
module Graphs {
  import opened Options

  /** Node labels are opaque; strings stand for the city names used as keys. */
  type Node = string

  /** node -> (neighbour -> weight), the shape of `graph_dict`. */
  type Adjacency = map<Node, map<Node, nat>>

  predicate HasEdge(g: Adjacency, a: Node, b: Node)
  {
    a in g && b in g[a]
  }

  /** The neighbour map of `a`, empty when `a` is not a key. */
  function Links(g: Adjacency, a: Node): map<Node, nat>
  {
    if a in g then g[a] else map[]
  }

  /** What `links.get(b)` answers once the links of `a` are looked up: the
      weight, or None when there is no edge a -> b. */
  function EdgeWeight(g: Adjacency, a: Node, b: Node): (r: Option<nat>)
    ensures r.Some? <==> HasEdge(g, a, b)
    ensures r.Some? ==> r.value == g[a][b]
  {
    if HasEdge(g, a, b) then Some(g[a][b]) else None
  }

  /** Every neighbour is itself a key, as in a networkx graph. */
  ghost predicate Closed(g: Adjacency)
  {
    forall a, b :: HasEdge(g, a, b) ==> b in g
  }

  /** Every edge has its mirror, with the same weight. */
  ghost predicate Symmetric(g: Adjacency)
  {
    forall a, b :: HasEdge(g, a, b) ==> HasEdge(g, b, a) && g[b][a] == g[a][b]
  }

  /** `nodes()`: the nodes that occur as a source key or as a neighbour. */
  function NodesOf(g: Adjacency): (s: set<Node>)
    ensures forall x :: x in s <==> x in g || exists y :: HasEdge(g, y, x)
  {
    var targets := set y, x | y in g && x in g[y] :: x;
    assert forall y, x :: HasEdge(g, y, x) ==> x in targets;
    forall x | x in targets ensures exists y :: HasEdge(g, y, x) {
      var y :| y in g && x in g[y];
      assert HasEdge(g, y, x);
    }
    g.Keys + targets
  }

  /** `connect1(a, b, d)`: `setdefault(a, {})[b] = d`. */
  function SetEdge(g: Adjacency, a: Node, b: Node, d: nat): (r: Adjacency)
    ensures r.Keys == g.Keys + {a}
    ensures EdgeWeight(r, a, b) == Some(d)
    ensures forall x, y :: (x != a || y != b) ==> EdgeWeight(r, x, y) == EdgeWeight(g, x, y)
  {
    g[a := Links(g, a)[b := d]]
  }

  /** The registration `setdefault(a, {})` done by `get`: `a` becomes a key,
      and no edge appears, disappears or changes weight. */
  function Register(g: Adjacency, a: Node): (r: Adjacency)
    ensures r.Keys == g.Keys + {a}
    ensures r[a] == Links(g, a)
    ensures forall x, y :: EdgeWeight(r, x, y) == EdgeWeight(g, x, y)
  {
    g[a := Links(g, a)]
  }

  /** `r` is what `make_undirected` may produce from `g`: its nodes are the
      nodes of `g`, all of them keys; its edges are those of `g` together
      with their mirrors; each edge keeps the weight of one of the two
      directions of `g`; and `r` is symmetric. */
  ghost predicate MirrorOf(r: Adjacency, g: Adjacency)
  {
    && r.Keys == NodesOf(g)
    && (forall x, y :: HasEdge(r, x, y) <==> HasEdge(g, x, y) || HasEdge(g, y, x))
    && (forall x, y :: HasEdge(r, x, y) ==>
          (HasEdge(g, x, y) && r[x][y] == g[x][y]) || (HasEdge(g, y, x) && r[x][y] == g[y][x]))
    && Symmetric(r)
  }

  /** The effect of the inner loop of `make_undirected` for key `a` once the
      neighbours in `bs` are done: for each b in bs, b -> a is set to the
      weight of a -> b. */
  function MirrorSome(g: Adjacency, a: Node, bs: set<Node>): (r: Adjacency)
    requires a in g && bs <= g[a].Keys
    ensures r.Keys == g.Keys + bs
  {
    map x | x in g.Keys + bs :: if x in bs then Links(g, x)[a := g[a][x]] else g[x]
  }

  /** Connecting the two directions of an edge keeps a graph symmetric. */
  lemma ConnectBothSymmetric(g: Adjacency, a: Node, b: Node, d: nat)
    requires Symmetric(g)
    ensures Symmetric(SetEdge(SetEdge(g, a, b, d), b, a, d))
  {
    var r := SetEdge(SetEdge(g, a, b, d), b, a, d);
    forall x, y | HasEdge(r, x, y)
      ensures HasEdge(r, y, x) && r[y][x] == r[x][y]
    {
      assert EdgeWeight(r, x, y).Some?;
      if (x == a && y == b) || (x == b && y == a) {
        assert EdgeWeight(r, y, x) == Some(d);
      } else {
        assert EdgeWeight(g, x, y) == EdgeWeight(r, x, y);
        assert EdgeWeight(r, y, x) == EdgeWeight(g, y, x);
      }
    }
  }

  /** Registering a node adds it to `nodes()` and nothing else. */
  lemma RegisterNodes(g: Adjacency, a: Node)
    ensures NodesOf(Register(g, a)) == NodesOf(g) + {a}
  {
    var r := Register(g, a);
    forall x ensures x in NodesOf(r) <==> x in NodesOf(g) + {a}
    {
      if x in NodesOf(r) && x !in r {
        var y :| HasEdge(r, y, x);
        assert EdgeWeight(g, y, x) == EdgeWeight(r, y, x);
      }
      if x in NodesOf(g) && x !in g {
        var y :| HasEdge(g, y, x);
        assert EdgeWeight(g, y, x) == EdgeWeight(r, y, x);
      }
    }
  }

  /** `connect1(a, b, d)` adds exactly a and b to `nodes()`. */
  lemma SetEdgeNodes(g: Adjacency, a: Node, b: Node, d: nat)
    ensures NodesOf(SetEdge(g, a, b, d)) == NodesOf(g) + {a, b}
  {
    var r := SetEdge(g, a, b, d);
    assert HasEdge(r, a, b) by { assert EdgeWeight(r, a, b) == Some(d); }
    forall x ensures x in NodesOf(r) <==> x in NodesOf(g) + {a, b}
    {
      if x in NodesOf(r) && x !in r && x != b {
        var y :| HasEdge(r, y, x);
        assert EdgeWeight(g, y, x) == EdgeWeight(r, y, x);
      }
      if x in NodesOf(g) && x !in g {
        var y :| HasEdge(g, y, x);
        if y != a || x != b {
          assert EdgeWeight(g, y, x) == EdgeWeight(r, y, x);
        }
      }
    }
  }

  /** `make_undirected` leaves a graph that is already symmetric unchanged. */
  lemma MirrorOfSymmetric(r: Adjacency, g: Adjacency)
    requires Symmetric(g) && MirrorOf(r, g)
    ensures r == g
  {
    assert r.Keys == g.Keys by {
      forall y, x | HasEdge(g, y, x) ensures x in g {
        assert HasEdge(g, x, y);
      }
    }
    forall x | x in r ensures r[x] == g[x] {
      assert r[x].Keys == g[x].Keys by {
        forall y ensures y in r[x] <==> y in g[x] {
          assert HasEdge(r, x, y) <==> HasEdge(g, x, y);
        }
      }
      forall y | y in r[x] ensures r[x][y] == g[x][y] {
        assert HasEdge(r, x, y);
      }
    }
  }

  /** The invariant of the outer loop of `make_undirected`, over the original
      graph `g0`, the current graph `g` and the keys `done` already handled:
      edges only grow, every edge comes from `g0` in one direction or the
      other with that direction's weight, and every edge leaving a handled
      key or a key that `g0` did not have is already mirrored. */
  ghost predicate MirrorProgress(g: Adjacency, g0: Adjacency, done: set<Node>)
  {
    && done <= g0.Keys
    && g0.Keys <= g.Keys <= NodesOf(g0)
    && (forall x, y :: HasEdge(g0, x, y) ==> HasEdge(g, x, y))
    && (forall x, y :: HasEdge(g, x, y) ==>
          (HasEdge(g0, x, y) && g[x][y] == g0[x][y]) || (HasEdge(g0, y, x) && g[x][y] == g0[y][x]))
    && (forall x, y :: HasEdge(g, x, y) && (x in done || x !in g0) ==>
          HasEdge(g, y, x) && g[y][x] == g[x][y])
  }

  /** Handling one more key `a` keeps the loop invariant. */
  lemma MirrorStep(g: Adjacency, g0: Adjacency, done: set<Node>, a: Node)
    requires MirrorProgress(g, g0, done)
    requires a in g0 && a !in done
    ensures MirrorProgress(MirrorSome(g, a, g[a].Keys), g0, done + {a})
  {
    var r := MirrorSome(g, a, g[a].Keys);
    forall x, y | HasEdge(g, x, y)
      ensures HasEdge(r, x, y)
      ensures r[x][y] == if y == a && x in g[a] then g[a][x] else g[x][y]
    {
    }
    assert r.Keys <= NodesOf(g0) by {
      forall x | x in r ensures x in NodesOf(g0) {
        if x !in g {
          assert HasEdge(g, a, x);
        }
      }
    }
    forall x, y | HasEdge(r, x, y)
      ensures (HasEdge(g0, x, y) && r[x][y] == g0[x][y]) || (HasEdge(g0, y, x) && r[x][y] == g0[y][x])
      ensures (x in done + {a} || x !in g0) ==> HasEdge(r, y, x) && r[y][x] == r[x][y]
    {
      if y == a && x in g[a] {
        assert HasEdge(g, a, x);
        assert r[x][y] == g[a][x];
      } else {
        assert HasEdge(g, x, y);
        assert r[x][y] == g[x][y];
        if x == a {
          assert HasEdge(r, y, x);
        }
      }
    }
  }

  /** At the end of the outer loop every key is handled, and the invariant
      says that the graph is the mirror of the original. */
  lemma MirrorDone(g: Adjacency, g0: Adjacency)
    requires MirrorProgress(g, g0, g0.Keys)
    ensures MirrorOf(g, g0)
  {
    forall x | x in NodesOf(g0) ensures x in g {
      if x !in g0 {
        var y :| HasEdge(g0, y, x);
        assert HasEdge(g, y, x);
      }
    }
  }

  /** Handling one more neighbour `b` of `a` in the inner loop is one
      `connect1(b, a, weight of a -> b)`. */
  lemma MirrorSomeStep(g: Adjacency, a: Node, bs: set<Node>, b: Node)
    requires a in g && bs <= g[a].Keys && b in g[a] && b !in bs
    ensures a in MirrorSome(g, a, bs) && b in MirrorSome(g, a, bs)[a]
    ensures MirrorSome(g, a, bs)[a][b] == g[a][b]
    ensures SetEdge(MirrorSome(g, a, bs), b, a, g[a][b]) == MirrorSome(g, a, bs + {b})
  {
    var m := MirrorSome(g, a, bs);
    assert Links(m, b) == Links(g, b);
  }

  /** An adjacency store with a direction mode. When undirected, every edge
      is mirrored with the same weight, from construction on. */
  class Graph {
    var adj: Adjacency
    var directed: bool

    /** The object invariant: an undirected graph is symmetric. */
    ghost predicate Valid()
      reads this
    {
      !directed ==> Symmetric(adj)
    }

    /** `Graph(graph_dict=None, directed=True)`; `graph_dict=None` is the
        empty map. */
    constructor (graphDict: Adjacency := map[], directed: bool := true)
      ensures this.directed == directed
      ensures directed ==> adj == graphDict
      ensures !directed ==> MirrorOf(adj, graphDict)
      ensures Valid()
    {
      adj := graphDict;
      this.directed := directed;
      new;
      if !directed {
        MakeUndirected();
      }
    }

    /** `make_undirected`: for every key `a` (in some order), and every
        neighbour b of a, `connect1(b, a, weight of a -> b)`. */
    method MakeUndirected()
      modifies this
      ensures directed == old(directed)
      ensures MirrorOf(adj, old(adj))
      ensures Valid()
    {
      ghost var g0 := adj;
      var todo := adj.Keys;
      ghost var done: set<Node> := {};
      while todo != {}
        invariant todo == g0.Keys - done
        invariant directed == old(directed)
        invariant MirrorProgress(adj, g0, done)
        decreases todo
      {
        var a :| a in todo;
        ghost var before := adj;
        MirrorKey(a);
        MirrorStep(before, g0, done, a);
        done := done + {a};
        todo := todo - {a};
      }
      MirrorDone(adj, g0);
    }

    /** The inner loop of `make_undirected` for one key `a`: every neighbour
        b of a gets the edge b -> a with the weight of a -> b. */
    method MirrorKey(a: Node)
      requires a in adj
      modifies this
      ensures directed == old(directed)
      ensures adj == MirrorSome(old(adj), a, old(adj)[a].Keys)
    {
      var neighbours := adj[a].Keys;
      var pending := neighbours;
      while pending != {}
        invariant pending <= neighbours
        invariant adj == MirrorSome(old(adj), a, neighbours - pending)
        invariant directed == old(directed)
        decreases pending
      {
        var b :| b in pending;
        MirrorSomeStep(old(adj), a, neighbours - pending, b);
        Connect1(b, a, adj[a][b]);
        assert neighbours - pending + {b} == neighbours - (pending - {b});
        pending := pending - {b};
      }
      assert neighbours - pending == neighbours;
    }

    /** `connect(a, b, d)`: set a -> b to d, and b -> a too when undirected;
        any earlier weight is overwritten. The weight defaults to 1. A
        symmetric undirected graph stays symmetric. */
    method Connect(a: Node, b: Node, d: nat := 1)
      modifies this
      ensures directed == old(directed)
      ensures adj == if directed then SetEdge(old(adj), a, b, d)
                     else SetEdge(SetEdge(old(adj), a, b, d), b, a, d)
      ensures EdgeWeight(adj, a, b) == Some(d)
      ensures !directed ==> EdgeWeight(adj, b, a) == Some(d)
      ensures old(Valid()) ==> Valid()
    {
      Connect1(a, b, d);
      if !directed {
        Connect1(b, a, d);
        if Symmetric(old(adj)) {
          ConnectBothSymmetric(old(adj), a, b, d);
        }
      }
    }

    /** `connect1(a, b, d)`: set a -> b to d in one direction only. */
    method Connect1(a: Node, b: Node, d: nat)
      modifies this
      ensures directed == old(directed)
      ensures adj == SetEdge(old(adj), a, b, d)
    {
      adj := adj[a := Links(adj, a)[b := d]];
    }

    /** `get(a)`: the neighbour map of `a`, which is registered as a key with
        no edges when it was not one. */
    method Get(a: Node) returns (links: map<Node, nat>)
      modifies this
      ensures links == Links(old(adj), a)
      ensures adj == Register(old(adj), a)
      ensures directed == old(directed)
      ensures old(Valid()) ==> Valid()
    {
      adj := adj[a := Links(adj, a)];
      links := adj[a];
    }

    /** `get(a, b)`: the weight of a -> b or None, with the same registration
        of `a` as `get(a)`. */
    method GetWeight(a: Node, b: Node) returns (w: Option<nat>)
      modifies this
      ensures w == EdgeWeight(old(adj), a, b)
      ensures adj == Register(old(adj), a)
      ensures directed == old(directed)
      ensures old(Valid()) ==> Valid()
    {
      var links := Get(a);
      w := if b in links then Some(links[b]) else None;
    }

    /** `nodes()`, as a set: Python returns it as a list in no set order. */
    function Nodes(): (s: set<Node>)
      reads this
      ensures s == NodesOf(adj)
    {
      NodesOf(adj)
    }
  }

  /** `UndirectedGraph(graph_dict=None)`. */
  method UndirectedGraph(graphDict: Adjacency := map[]) returns (r: Graph)
    ensures fresh(r)
    ensures !r.directed && MirrorOf(r.adj, graphDict)
    ensures r.Valid()
  {
    r := new Graph(graphDict, false);
  }
}
