/** Walks over a weighted adjacency map: what a path is, what it costs and
    when one node can be reached from another. */
module Paths {
  import opened Graphs

  /** The weight of edge a -> b, and 0 when there is no such edge. */
  function Weight(g: Adjacency, a: Node, b: Node): nat
  {
    if HasEdge(g, a, b) then g[a][b] else 0
  }

  /** `p` is a walk from `s` to `t`: it starts at `s`, ends at `t`, and every
      consecutive pair is an edge of `g`. */
  ghost predicate IsPath(g: Adjacency, p: seq<Node>, s: Node, t: Node)
  {
    && |p| > 0
    && p[0] == s
    && p[|p| - 1] == t
    && forall k :: 0 <= k < |p| - 1 ==> HasEdge(g, p[k], p[k + 1])
  }

  /** The total weight of the consecutive edges of `p`. */
  function PathCost(g: Adjacency, p: seq<Node>): nat
  {
    if |p| <= 1 then 0
    else PathCost(g, p[..|p| - 1]) + Weight(g, p[|p| - 2], p[|p| - 1])
  }

  ghost predicate Reachable(g: Adjacency, s: Node, t: Node)
  {
    exists p :: IsPath(g, p, s, t)
  }

  /** No node occurs twice in `p`. */
  ghost predicate Distinct(p: seq<Node>)
  {
    forall i, j :: 0 <= i < j < |p| ==> p[i] != p[j]
  }

  /** `p` is a path from `s` to `t` that no other such path undercuts. */
  ghost predicate IsShortest(g: Adjacency, p: seq<Node>, s: Node, t: Node)
  {
    && IsPath(g, p, s, t)
    && forall q :: IsPath(g, q, s, t) ==> PathCost(g, p) <= PathCost(g, q)
  }

  /** Appending an edge u -> w to a path ending at u gives a path ending at w
      that costs the edge's weight more. */
  lemma PathExtend(g: Adjacency, p: seq<Node>, s: Node, u: Node, w: Node)
    requires IsPath(g, p, s, u)
    requires HasEdge(g, u, w)
    ensures IsPath(g, p + [w], s, w)
    ensures PathCost(g, p + [w]) == PathCost(g, p) + g[u][w]
  {
    assert (p + [w])[..|p|] == p;
  }

  /** Dropping the tail of a path leaves a path that costs no more. */
  lemma {:induction false} PrefixCost(g: Adjacency, p: seq<Node>, k: nat)
    requires 0 < k <= |p|
    ensures PathCost(g, p[..k]) <= PathCost(g, p)
    decreases |p|
  {
    if k < |p| {
      assert p[..|p| - 1][..k] == p[..k];
      PrefixCost(g, p[..|p| - 1], k);
    } else {
      assert p[..k] == p;
    }
  }

  /** A path that starts inside `inside` and ends outside it leaves the set
      along some edge p[k-1] -> p[k]; the part up to p[k-1] is itself a path
      from `s`, and it plus that edge costs no more than the whole path. */
  lemma CrossingEdge(g: Adjacency, p: seq<Node>, s: Node, t: Node, inside: set<Node>)
    returns (k: nat)
    requires IsPath(g, p, s, t)
    requires s in inside && t !in inside
    ensures 0 < k < |p|
    ensures p[k - 1] in inside && p[k] !in inside
    ensures HasEdge(g, p[k - 1], p[k])
    ensures IsPath(g, p[..k], s, p[k - 1])
    ensures PathCost(g, p[..k]) + g[p[k - 1]][p[k]] <= PathCost(g, p)
  {
    k := 1;
    while p[k] in inside
      invariant 0 < k < |p|
      invariant p[k - 1] in inside
      decreases |p| - k
    {
      k := k + 1;
    }
    assert p[..k + 1][..k] == p[..k];
    PrefixCost(g, p, k + 1);
  }
}
