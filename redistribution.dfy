/** The per-step redistribution planner embedded in `show_map`: classify
    each node by its production and consumption at one step, list the
    surplus and deficit nodes, and for every (surplus, deficit) pair whose
    shortest path exists emit an instruction to send toward the first hop of
    that path, with a magnitude bounded by the cap. Exact reals stand for
    the floating-point readings. */
module Redistribution {
  import opened Options
  import opened Graphs
  import opened Paths
  import opened Dijkstra

  /** A production or consumption sample. None stands for a missing value
      (NaN in the data), with which every comparison is false. */
  type Sample = Option<real>

  /** The `production` and `consumption` series of one node, by step. */
  datatype Series = Series(production: seq<Sample>, consumption: seq<Sample>)

  /** A node's production and consumption at one step. */
  datatype Reading = Reading(production: Sample, consumption: Sample)

  /** The node colours of line 97: green, red, white and grey. */
  datatype Status = Surplus | Deficit | Balanced | Unknown

  /** The surplus is divided by this ... */
  const Scale: real := 500.0
  /** ... and the magnitude never exceeds this. */
  const Cap: real := 0.5

  predicate HasStep(s: Series, step: nat)
  {
    step < |s.production| && step < |s.consumption|
  }

  /** `v['production'][step]` and `v['consumption'][step]`. */
  function At(s: Series, step: nat): Reading
    requires HasStep(s, step)
  {
    Reading(s.production[step], s.consumption[step])
  }

  /** production > consumption, false when either is missing. */
  predicate Exceeds(r: Reading)
  {
    r.production.Some? && r.consumption.Some? && r.production.value > r.consumption.value
  }

  /** production < consumption, false when either is missing. */
  predicate FallsShort(r: Reading)
  {
    r.production.Some? && r.consumption.Some? && r.production.value < r.consumption.value
  }

  /** production == consumption, false when either is missing. */
  predicate Matches(r: Reading)
  {
    r.production.Some? && r.consumption.Some? && r.production.value == r.consumption.value
  }

  /** The colour chain of line 97: surplus if production exceeds
      consumption, else deficit if it falls short, else balanced if they
      are equal, else unknown. Exactly one status applies, and the
      fall-through case is exactly the case of a missing value. */
  function Classify(r: Reading): (st: Status)
    ensures st == Surplus <==> Exceeds(r)
    ensures st == Deficit <==> FallsShort(r)
    ensures st == Balanced <==> Matches(r)
    ensures st == Unknown <==> r.production.None? || r.consumption.None?
  {
    if Exceeds(r) then Surplus
    else if FallsShort(r) then Deficit
    else if Matches(r) then Balanced
    else Unknown
  }

  /** `node_colors` (line 97): one status for every node that has data. */
  function NodeColors(data: map<Node, Series>, step: nat): (colors: map<Node, Status>)
    requires forall k :: k in data ==> HasStep(data[k], step)
    ensures colors.Keys == data.Keys
    ensures forall k :: k in data ==> colors[k] == Classify(At(data[k], step))
  {
    map k | k in data :: Classify(At(data[k], step))
  }

  /** The nodes of `nodes`, in order, whose reading at `step` has status
      `status`; lines 138 and 139 select Surplus and Deficit this way. */
  function Select(nodes: seq<Node>, data: map<Node, Series>, step: nat, status: Status): (r: seq<Node>)
    requires forall n :: n in nodes ==> n in data && HasStep(data[n], step)
    ensures forall n :: n in r <==> n in nodes && Classify(At(data[n], step)) == status
    ensures |r| <= |nodes|
  {
    if nodes == [] then []
    else
      var rest := Select(nodes[1..], data, step, status);
      if Classify(At(data[nodes[0]], step)) == status then [nodes[0]] + rest else rest
  }

  /** `surplus_cities` (line 138). */
  function SurplusCities(nodes: seq<Node>, data: map<Node, Series>, step: nat): seq<Node>
    requires forall n :: n in nodes ==> n in data && HasStep(data[n], step)
  {
    Select(nodes, data, step, Surplus)
  }

  /** `deficit_cities` (line 139). */
  function DeficitCities(nodes: seq<Node>, data: map<Node, Series>, step: nat): seq<Node>
    requires forall n :: n in nodes ==> n in data && HasStep(data[n], step)
  {
    Select(nodes, data, step, Deficit)
  }

  /** The surplus and deficit lists are disjoint, and a node whose data is
      missing or balanced is in neither. */
  lemma SurplusDeficitDisjoint(nodes: seq<Node>, data: map<Node, Series>, step: nat, n: Node)
    requires forall n :: n in nodes ==> n in data && HasStep(data[n], step)
    ensures !(n in SurplusCities(nodes, data, step) && n in DeficitCities(nodes, data, step))
    ensures n in SurplusCities(nodes, data, step) ==> Exceeds(At(data[n], step))
    ensures n in DeficitCities(nodes, data, step) ==> FallsShort(At(data[n], step))
  {
  }

  /** `max(0, production - consumption)` (line 142). Python's `max(0, nan)`
      is 0, so a missing value gives 0. The amount is never negative, it is
      the exact excess of a surplus node, and positive exactly then. */
  function SurplusAmount(r: Reading): (s: real)
    ensures s >= 0.0
    ensures Exceeds(r) ==> s == r.production.value - r.consumption.value
    ensures s > 0.0 <==> Exceeds(r)
  {
    if r.production.Some? && r.consumption.Some? then
      var d := r.production.value - r.consumption.value;
      if d > 0.0 then d else 0.0
    else 0.0
  }

  /** `min(0.5, surplus / 500)` (line 150): Python's `min(a, b)` is b when
      b < a and a otherwise. The magnitude never exceeds the cap, is never
      negative for a non-negative surplus and positive for a positive one,
      and is the scaled surplus until the cap is reached. */
  function Magnitude(surplus: real): (m: real)
    ensures m <= Cap
    ensures surplus >= 0.0 ==> m >= 0.0
    ensures surplus > 0.0 ==> m > 0.0
    ensures surplus / Scale < Cap ==> m == surplus / Scale
    ensures surplus / Scale >= Cap ==> m == Cap
  {
    if surplus / Scale < Cap then surplus / Scale else Cap
  }

  /** A larger surplus never gives a smaller magnitude. */
  lemma MagnitudeMonotonic(s1: real, s2: real)
    requires s1 <= s2
    ensures Magnitude(s1) <= Magnitude(s2)
  {
  }

  /** A routing instruction: send from `origin` toward `firstHop`, with the
      arrow length the source computes as `magnitude`. */
  datatype Instruction = Instruction(origin: Node, firstHop: Node, magnitude: real)

  /** `h` is the second node of a shortest path from `s` to `d` that repeats
      no node. */
  ghost predicate FirstHop(g: Adjacency, s: Node, d: Node, h: Node)
  {
    exists p :: IsShortest(g, p, s, d) && Distinct(p) && |p| >= 2 && p[1] == h
  }

  /** The pairs (s, d) with d in `targets` reachable from s, in `targets`
      order. */
  ghost function Row(g: Adjacency, s: Node, targets: seq<Node>): seq<(Node, Node)>
  {
    if targets == [] then []
    else
      var d := targets[|targets| - 1];
      Row(g, s, targets[..|targets| - 1]) + (if Reachable(g, s, d) then [(s, d)] else [])
  }

  /** The pairs (s, d), s in `origins` and d in `targets`, with d reachable
      from s, in the order of the nested loops of lines 141-149. */
  ghost function RoutedPairs(g: Adjacency, origins: seq<Node>, targets: seq<Node>): seq<(Node, Node)>
  {
    if origins == [] then []
    else
      RoutedPairs(g, origins[..|origins| - 1], targets) + Row(g, origins[|origins| - 1], targets)
  }

  /** The instruction `ins` is the one emitted for the pair (s, d). */
  ghost predicate InstructionFor(g: Adjacency, data: map<Node, Series>, step: nat,
                                 pair: (Node, Node), ins: Instruction)
  {
    && pair.0 in data && HasStep(data[pair.0], step)
    && ins.origin == pair.0
    && ins.magnitude == Magnitude(SurplusAmount(At(data[pair.0], step)))
    && FirstHop(g, pair.0, pair.1, ins.firstHop)
  }

  /** `plan` holds, position by position, the instruction of each pair. */
  ghost predicate Aligned(g: Adjacency, data: map<Node, Series>, step: nat,
                          plan: seq<Instruction>, pairs: seq<(Node, Node)>)
  {
    && |plan| == |pairs|
    && forall k :: 0 <= k < |plan| ==> InstructionFor(g, data, step, pairs[k], plan[k])
  }

  lemma AlignedAppend(g: Adjacency, data: map<Node, Series>, step: nat,
                      plan: seq<Instruction>, pairs: seq<(Node, Node)>,
                      ins: seq<Instruction>, more: seq<(Node, Node)>)
    requires Aligned(g, data, step, plan, pairs) && Aligned(g, data, step, ins, more)
    ensures Aligned(g, data, step, plan + ins, pairs + more)
  {
    forall k | 0 <= k < |plan + ins|
      ensures InstructionFor(g, data, step, (pairs + more)[k], (plan + ins)[k])
    {
      if k < |plan| {
        assert (pairs + more)[k] == pairs[k] && (plan + ins)[k] == plan[k];
      } else {
        assert (pairs + more)[k] == more[k - |plan|] && (plan + ins)[k] == ins[k - |plan|];
      }
    }
  }

  /** A pair is in the row of `s` exactly when it is (s, d) for a d of
      `targets` reachable from s. */
  lemma {:induction false} RowMembers(g: Adjacency, s: Node, targets: seq<Node>, pair: (Node, Node))
    ensures pair in Row(g, s, targets) <==> pair.0 == s && pair.1 in targets && Reachable(g, s, pair.1)
    decreases |targets|
  {
    if targets != [] {
      var init := targets[..|targets| - 1];
      RowMembers(g, s, init, pair);
      assert targets == init + [targets[|targets| - 1]];
    }
  }

  /** A pair is routed exactly when its origin is in `origins`, its
      destination in `targets`, and the destination is reachable from the
      origin: every such pair, and no other, gets an instruction. */
  lemma {:induction false} RoutedPairsMembers(g: Adjacency, origins: seq<Node>, targets: seq<Node>, pair: (Node, Node))
    ensures pair in RoutedPairs(g, origins, targets) <==>
              pair.0 in origins && pair.1 in targets && Reachable(g, pair.0, pair.1)
    decreases |origins|
  {
    if origins != [] {
      var init := origins[..|origins| - 1];
      RoutedPairsMembers(g, init, targets, pair);
      RowMembers(g, origins[|origins| - 1], targets, pair);
      assert origins == init + [origins[|origins| - 1]];
    }
  }

  /** What every emitted instruction satisfies: its origin is a surplus
      node and its destination a deficit node reachable from it, its first
      hop is a neighbour of the origin, and its magnitude lies in (0, Cap]. */
  lemma PlanFacts(g: Adjacency, nodes: seq<Node>, data: map<Node, Series>, step: nat,
                  plan: seq<Instruction>, k: nat)
    requires forall n :: n in nodes ==> n in data && HasStep(data[n], step)
    requires Aligned(g, data, step, plan, RoutedPairs(g, SurplusCities(nodes, data, step), DeficitCities(nodes, data, step)))
    requires k < |plan|
    ensures plan[k].origin in SurplusCities(nodes, data, step)
    ensures HasEdge(g, plan[k].origin, plan[k].firstHop)
    ensures 0.0 < plan[k].magnitude <= Cap
  {
    var pairs := RoutedPairs(g, SurplusCities(nodes, data, step), DeficitCities(nodes, data, step));
    RoutedPairsMembers(g, SurplusCities(nodes, data, step), DeficitCities(nodes, data, step), pairs[k]);
    assert InstructionFor(g, data, step, pairs[k], plan[k]);
    var p :| IsShortest(g, p, pairs[k].0, pairs[k].1) && Distinct(p) && |p| >= 2 && p[1] == plan[k].firstHop;
    assert HasEdge(g, p[0], p[1]);
  }

  /** The inner loop of lines 144-152 for one surplus node `origin`: for
      every deficit node, in order, look up the shortest path and, when
      there is one, emit an instruction toward its second node. */
  method RouteFrom(g: Adjacency, data: map<Node, Series>, step: nat, origin: Node, targets: seq<Node>)
    returns (row: seq<Instruction>)
    requires Closed(g)
    requires origin in g && origin in data && HasStep(data[origin], step)
    requires origin !in targets
    ensures Aligned(g, data, step, row, Row(g, origin, targets))
  {
    var surplus := SurplusAmount(At(data[origin], step));
    row := [];
    for j := 0 to |targets|
      invariant Aligned(g, data, step, row, Row(g, origin, targets[..j]))
    {
      var target := targets[j];
      var path := ShortestPath(g, origin, target);
      assert targets[..j + 1][..j] == targets[..j];
      if path != [] {
        assert target in targets;
        assert FirstHop(g, origin, target, path[1]);
        var ins := Instruction(origin, path[1], Magnitude(surplus));
        AlignedAppend(g, data, step, row, Row(g, origin, targets[..j]), [ins], [(origin, target)]);
        row := row + [ins];
      }
    }
    assert targets[..|targets|] == targets;
  }

  /** The `if redistribute:` block of `show_map` (lines 138-150) as a
      planner: the instructions of every surplus node, in order, one after
      another. `nodes` is `G.nodes()`. */
  method Plan(g: Adjacency, nodes: seq<Node>, data: map<Node, Series>, step: nat)
    returns (plan: seq<Instruction>)
    requires Closed(g)
    requires forall n :: n in nodes ==> n in g && n in data && HasStep(data[n], step)
    ensures Aligned(g, data, step, plan, RoutedPairs(g, SurplusCities(nodes, data, step), DeficitCities(nodes, data, step)))
  {
    var surplusCities := SurplusCities(nodes, data, step);
    var deficitCities := DeficitCities(nodes, data, step);
    plan := [];
    for i := 0 to |surplusCities|
      invariant Aligned(g, data, step, plan, RoutedPairs(g, surplusCities[..i], deficitCities))
    {
      var row := RouteFrom(g, data, step, surplusCities[i], deficitCities);
      assert surplusCities[..i + 1][..i] == surplusCities[..i];
      AlignedAppend(g, data, step, plan, RoutedPairs(g, surplusCities[..i], deficitCities),
                    row, Row(g, surplusCities[i], deficitCities));
      plan := plan + row;
    }
    assert surplusCities[..|surplusCities|] == surplusCities;
  }
}
