/** `shortest_hamiltonian_path` of src/graph.rs: the bitmask dynamic
    program over (visited set, last node), the choice of the final node,
    and the reconstruction of the path by following recorded parents.
    A mask is modelled as the set of its bits. The source fills its table
    in increasing numeric mask order, and each entry reads only entries of
    the mask without one bit, which is numerically smaller; so the table it
    ends with is the function Dp below. */
module Hamiltonian {
  import opened Seqs
  import opened Wrappers
  import opened Graph

  /** A table entry: the cost of the cheapest route found and the node it
      came from (none for the starting entry). */
  datatype Entry = Entry(cost: nat, parent: Option<nat>)

  /** The nodes 0..n-1: the full mask. */
  function Nodes(n: nat): (r: set<nat>)
    ensures forall i: nat :: i in r <==> i < n
    ensures |r| == n
  {
    if n == 0 then {} else Nodes(n - 1) + {n - 1}
  }

  /** The table entry for (S, v): a route from `start` through exactly the
      nodes of S, ending at v. Only `({start}, start)` is seeded; any other
      entry takes the cheapest finite extension of an entry for S without v,
      and is absent when there is none. */
  function Dp(g: Graph, start: nat, S: set<nat>, v: nat): (r: Option<Entry>)
    requires Valid(g) && start < g.n && v < g.n
    ensures r.Some? ==> v in S && start in S && r.value.cost < INF
    decreases |S|, 2
  {
    if v !in S || start !in S then None
    else if S == {start} then Some(Entry(0, None))
    else
      var (best, bu) := Scan(g, start, S, v, 0, INF, None);
      if best < INF then Some(Entry(best, bu)) else None
  }

  /** What reaching v from u costs for entry (S, v): nothing when u is v, u
      is not in S, the entry for (S without v, u) is absent or the edge
      u -> v is missing; otherwise that entry's cost plus the edge weight,
      saturated. */
  function Via(g: Graph, start: nat, S: set<nat>, v: nat, u: nat): (r: Option<nat>)
    requires Valid(g) && start < g.n && v < g.n && v in S && u < g.n
    decreases |S|, 0
  {
    if u in S && u != v && Dp(g, start, S - {v}, u).Some? && Dist(g, u, v) < INF
    then Some(SatAdd(Dp(g, start, S - {v}, u).value.cost, Dist(g, u, v)))
    else None
  }

  /** The inner `for &u in &bits` loop for entry (S, v), from node u on:
      keep the first candidate of strictly smallest cost below `best`. */
  function Scan(g: Graph, start: nat, S: set<nat>, v: nat, u: nat, best: nat, bu: Option<nat>): (r: (nat, Option<nat>))
    requires Valid(g) && start < g.n && v < g.n && v in S && u <= g.n && best <= INF
    ensures r.0 <= best
    ensures r.0 == best ==> r.1 == bu
    ensures r.0 < best ==> r.1.Some? && u <= r.1.value < g.n && Via(g, start, S, v, r.1.value) == Some(r.0)
    ensures forall x: nat :: u <= x < g.n && Via(g, start, S, v, x).Some? ==> r.0 <= Via(g, start, S, v, x).value
    ensures r.0 < best ==> forall x: nat :: u <= x < r.1.value && Via(g, start, S, v, x).Some? ==> r.0 < Via(g, start, S, v, x).value
    decreases |S|, 1, g.n - u
  {
    if u == g.n then (best, bu)
    else
      match Via(g, start, S, v, u)
      case Some(c) =>
        if c < best then Scan(g, start, S, v, u + 1, c, Some(u))
        else Scan(g, start, S, v, u + 1, best, bu)
      case None => Scan(g, start, S, v, u + 1, best, bu)
  }

  /** Every entry other than the seed records a parent: a node of S other
      than v whose entry for S without v exists, joined to v by an edge, and
      the entry's cost is that entry's cost plus the edge weight. The parent
      is the first node of least cost. */
  lemma DpParent(g: Graph, start: nat, S: set<nat>, v: nat)
    requires Valid(g) && start < g.n && v < g.n
    requires Dp(g, start, S, v).Some? && S != {start}
    ensures Dp(g, start, S, v).value.parent.Some?
    ensures var u := Dp(g, start, S, v).value.parent.value;
      && u in S && u != v && u < g.n
      && Dp(g, start, S - {v}, u).Some? && g.w[u][v].Some?
      && Dp(g, start, S, v).value.cost == Dp(g, start, S - {v}, u).value.cost + Dist(g, u, v)
      && forall x: nat :: x < u && Via(g, start, S, v, x).Some? ==> Via(g, start, S, v, x).value > Dp(g, start, S, v).value.cost
    ensures forall x: nat :: x < g.n && Via(g, start, S, v, x).Some? ==> Dp(g, start, S, v).value.cost <= Via(g, start, S, v, x).value
  {
  }

  /** The seed is the only entry with no parent. */
  lemma DpSeed(g: Graph, start: nat)
    requires Valid(g) && start < g.n
    ensures Dp(g, start, {start}, start) == Some(Entry(0, None))
  {
  }

  /** No route other than the trivial one ends back at `start`. */
  lemma DpNeverReturns(g: Graph, start: nat, S: set<nat>)
    requires Valid(g) && start < g.n && S != {start}
    ensures Dp(g, start, S, start).None?
  {
    if start in S {
      var r := Scan(g, start, S, start, 0, INF, None);
    }
  }

  // ---------------------------------------------------------------------
  // Reconstruction

  /** The reconstruction loop from entry (S, v), already reversed: stop at a
      single-node mask or a missing parent, otherwise drop v and continue
      from its parent. */
  function Walk(g: Graph, start: nat, S: set<nat>, v: nat): (p: seq<nat>)
    requires Valid(g) && start < g.n && v < g.n
    ensures |p| > 0 && p[|p| - 1] == v
    decreases |S|
  {
    if v !in S || S == {v} then [v]
    else
      match Dp(g, start, S, v)
      case Some(Entry(_, Some(u))) =>
        if u < g.n then Walk(g, start, S - {v}, u) + [v] else [v]
      case _ => [v]
  }

  /** A simple path from `start` to v through exactly the nodes of S. */
  predicate SimplePath(g: Graph, start: nat, S: set<nat>, v: nat, p: seq<nat>) {
    IsWalk(g, p) && p[0] == start && p[|p| - 1] == v && Distinct(p) && Elems(p) == S
  }

  /** Each entry is the cost of the path its parents spell out. */
  lemma {:induction false} DpSound(g: Graph, start: nat, S: set<nat>, v: nat)
    requires Valid(g) && start < g.n && v < g.n && Dp(g, start, S, v).Some?
    ensures SimplePath(g, start, S, v, Walk(g, start, S, v))
    ensures WalkCost(g, Walk(g, start, S, v)) == Dp(g, start, S, v).value.cost
    decreases |S|
  {
    if S == {start} {
      assert Walk(g, start, S, v) == [start];
      assert Elems([start]) == {start};
    } else {
      var u := ParentOf(g, start, S, v);
      var w := Walk(g, start, S - {v}, u);
      DpSound(g, start, S - {v}, u);
      assert Walk(g, start, S, v) == w + [v];
      SoundStep(g, start, S, v, u, w);
    }
  }

  /** The parent's path extended by v is a path for (S, v) of the entry's cost. */
  lemma SoundStep(g: Graph, start: nat, S: set<nat>, v: nat, u: nat, w: seq<nat>)
    requires Valid(g) && start < g.n && v < g.n && u < g.n && v in S
    requires Dp(g, start, S, v).Some? && Dp(g, start, S - {v}, u).Some?
    requires Dp(g, start, S, v).value.cost == Dp(g, start, S - {v}, u).value.cost + Dist(g, u, v)
    requires SimplePath(g, start, S - {v}, u, w) && WalkCost(g, w) == Dp(g, start, S - {v}, u).value.cost
    ensures SimplePath(g, start, S, v, w + [v])
    ensures WalkCost(g, w + [v]) == Dp(g, start, S, v).value.cost
  {
    WalkCostSnoc(g, w, v);
    SimplePathSnoc(g, start, S - {v}, u, w, v);
    assert S - {v} + {v} == S;
  }

  /** The parent of a non-seed entry, with the facts the soundness proof uses. */
  lemma ParentOf(g: Graph, start: nat, S: set<nat>, v: nat) returns (u: nat)
    requires Valid(g) && start < g.n && v < g.n
    requires Dp(g, start, S, v).Some? && S != {start}
    ensures Dp(g, start, S, v).value.parent == Some(u)
    ensures u in S && u != v && u < g.n && v in S && Dp(g, start, S - {v}, u).Some?
    ensures Dp(g, start, S, v).value.cost == Dp(g, start, S - {v}, u).value.cost + Dist(g, u, v)
  {
    DpParent(g, start, S, v);
    u := Dp(g, start, S, v).value.parent.value;
  }

  /** A simple path extended by a node it has not visited is simple. */
  lemma SimplePathSnoc(g: Graph, start: nat, S: set<nat>, u: nat, w: seq<nat>, v: nat)
    requires SimplePath(g, start, S, u, w) && v !in S && v < g.n
    ensures SimplePath(g, start, S + {v}, v, w + [v])
  {
    ElemsSnoc(w + [v]);
    assert (w + [v])[..|w|] == w;
    assert forall t :: 0 <= t < |w| ==> w[t] in Elems(w);
  }

  lemma ElemsSnoc(p: seq<nat>)
    requires |p| > 0
    ensures Elems(p) == Elems(p[..|p| - 1]) + {p[|p| - 1]}
  {
    assert p == p[..|p| - 1] + [p[|p| - 1]];
  }

  /** No simple path is cheaper than the entry for its node set and end. */
  lemma {:induction false} DpOptimal(g: Graph, start: nat, S: set<nat>, v: nat, p: seq<nat>)
    requires Valid(g) && start < g.n && v < g.n
    requires SimplePath(g, start, S, v, p) && WalkCost(g, p) < INF
    ensures Dp(g, start, S, v).Some?
    ensures Dp(g, start, S, v).value.cost <= WalkCost(g, p)
    decreases |p|
  {
    if |p| == 1 {
      assert S == {start} by { ElemsSnoc(p); }
    } else {
      var q := p[..|p| - 1];
      var u := q[|q| - 1];
      OptimalPrefix(g, start, S, v, p);
      assert Dp(g, start, S - {v}, u).Some? && Dp(g, start, S - {v}, u).value.cost <= WalkCost(g, q) by {
        DpOptimal(g, start, S - {v}, u, q);
      }
      ViaBound(g, start, S, v, u);
    }
  }

  /** Dropping the last node of a simple path gives a simple path for the
      smaller set, one step cheaper. */
  lemma OptimalPrefix(g: Graph, start: nat, S: set<nat>, v: nat, p: seq<nat>)
    requires Valid(g) && start < g.n && v < g.n
    requires SimplePath(g, start, S, v, p) && |p| >= 2
    ensures var q := p[..|p| - 1];
      && SimplePath(g, start, S - {v}, q[|q| - 1], q) && q[|q| - 1] != v && q[|q| - 1] in S
      && v in S && start in S - {v}
      && WalkCost(g, p) == WalkCost(g, q) + Dist(g, q[|q| - 1], v)
  {
    ElemsSnoc(p);
    var q := p[..|p| - 1];
    var u := q[|q| - 1];
    assert p == q + [v];
    assert u == p[|p| - 2] && u != v;
    assert forall t :: 0 <= t < |q| ==> q[t] == p[t] != p[|p| - 1];
    assert Elems(q) == S - {v};
    assert q[0] in Elems(q);
    WalkCostSnoc(g, q, v);
  }

  /** An entry is no dearer than reaching v through any candidate u. */
  lemma ViaBound(g: Graph, start: nat, S: set<nat>, v: nat, u: nat)
    requires Valid(g) && start < g.n && v < g.n && u < g.n && v in S && v != start
    requires Via(g, start, S, v, u).Some? && Via(g, start, S, v, u).value < INF
    ensures Dp(g, start, S, v).Some? && Dp(g, start, S, v).value.cost <= Via(g, start, S, v, u).value
  {
  }

  // ---------------------------------------------------------------------
  // Choosing the last node and the answer

  /** The total for finishing at v: the entry for (all nodes, v), plus the
      edge back to `start` when a cycle is required and v is not `start`;
      nothing when the entry is absent or that edge is missing. */
  function Finish(g: Graph, start: nat, closing: bool, v: nat): Option<nat>
    requires Valid(g) && start < g.n && v < g.n
  {
    match Dp(g, start, Nodes(g.n), v)
    case None => None
    case Some(e) =>
      if closing && v != start then
        if Dist(g, v, start) == INF then None else Some(SatAdd(e.cost, Dist(g, v, start)))
      else Some(e.cost)
  }

  /** The total for finishing at each node, in node order. */
  function Totals(g: Graph, start: nat, closing: bool): (ts: seq<Option<nat>>)
    requires Valid(g) && start < g.n
    ensures |ts| == g.n
    ensures forall x :: 0 <= x < g.n ==> ts[x] == Finish(g, start, closing, x)
  {
    seq(g.n, x requires 0 <= x < g.n => Finish(g, start, closing, x))
  }

  /** The `for v in 0..n` loop over the totals `ts`: the first v of
      strictly smallest total. */
  function FinalScan(ts: seq<Option<nat>>, v: nat, best: nat, last: Option<nat>): (r: (nat, Option<nat>))
    requires v <= |ts|
    ensures r.0 <= best
    ensures r.0 == best ==> r.1 == last
    ensures r.0 < best ==> r.1.Some? && v <= r.1.value < |ts| && ts[r.1.value] == Some(r.0)
    decreases |ts| - v
  {
    if v == |ts| then (best, last)
    else
      var improves := ts[v].Some? && ts[v].value < best;
      FinalScan(ts, v + 1, if improves then ts[v].value else best, if improves then Some(v) else last)
  }

  /** `shortest_hamiltonian_path(graph, start, require_finish_at_start)`:
      the cheapest route from `start` through every node (and back to
      `start` when a cycle is required), with its cost. */
  function ShortestHamiltonianPath(g: Graph, start: nat, closing: bool): (r: Option<(seq<nat>, nat)>)
    requires Valid(g)
    ensures g.n == 0 ==> r.None?
    ensures g.n == 1 ==> (r.Some? <==> start == 0) && (r.Some? ==> r.value == ([start], 0))
    ensures start >= g.n ==> r.None?
    ensures r.Some? ==> r.value.1 < INF && |r.value.0| > 0
  {
    if g.n == 0 then None
    else if g.n == 1 then (if start == 0 then Some(([start], 0)) else None)
    else if start >= g.n then None
    else
      var scan := FinalScan(Totals(g, start, closing), 0, INF, None);
      var best, last := scan.0, scan.1;
      if best == INF then None
      else
        Some((Route(g, start, closing, last.value), best))
  }

  /** The path reported for end node v: the reconstructed path, closed back
      to `start` when a cycle is required and it does not end there. */
  function Route(g: Graph, start: nat, closing: bool, v: nat): (path: seq<nat>)
    requires Valid(g) && start < g.n && v < g.n
    ensures |path| > 0
  {
    var w := Walk(g, start, Nodes(g.n), v);
    if closing && w[|w| - 1] != start then w + [start] else w
  }

  /** What the answer `Some((path, cost))` promises: the path starts at
      `start` and visits every node once (then returns to `start` if a
      cycle is required), each step is an edge, and `cost` is both the sum
      of the edge weights along the path and the candidate's tour cost. */
  predicate Reported(g: Graph, start: nat, closing: bool, path: seq<nat>, cost: nat)
    requires Valid(g) && start < g.n
  {
    && |path| == g.n + (if closing then 1 else 0)
    && Hamiltonian(g, start, path[..g.n])
    && (closing ==> path[g.n] == start)
    && IsWalk(g, path) && WalkCost(g, path) == cost
    && TourCost(g, start, closing, path[..g.n]) == cost
    && (forall t :: 0 <= t < |path| - 1 ==> g.w[path[t]][path[t + 1]].Some?)
  }

  /** A visit of every node exactly once, starting at `start`. */
  predicate Hamiltonian(g: Graph, start: nat, p: seq<nat>) {
    |p| == g.n && IsWalk(g, p) && p[0] == start && Distinct(p)
  }

  /** What a candidate costs: its edges, plus the edge back to `start` when
      a cycle is required. */
  function TourCost(g: Graph, start: nat, closing: bool, p: seq<nat>): nat
    requires Valid(g) && IsWalk(g, p) && start < g.n
  {
    WalkCost(g, p) + if closing then Dist(g, p[|p| - 1], start) else 0
  }

  lemma {:induction false} DistinctElemsCount(p: seq<nat>)
    requires Distinct(p)
    ensures |Elems(p)| == |p|
    decreases |p|
  {
    if |p| > 0 {
      var q := p[..|p| - 1];
      ElemsSnoc(p);
      assert Distinct(q);
      DistinctElemsCount(q);
      assert forall t :: 0 <= t < |q| ==> q[t] == p[t] != p[|p| - 1];
    }
  }

  lemma SubsetOfSameSize(a: set<nat>, b: set<nat>)
    requires a <= b && |a| == |b|
    ensures a == b
  {
    assert |b - a| == |b| - |a|;
  }

  /** A visit of every node is a simple path through all of them, and back. */
  lemma HamiltonianIsFullPath(g: Graph, start: nat, p: seq<nat>)
    requires Hamiltonian(g, start, p)
    ensures SimplePath(g, start, Nodes(g.n), p[|p| - 1], p)
  {
    DistinctElemsCount(p);
    SubsetOfSameSize(Elems(p), Nodes(g.n));
  }

  lemma FullPathIsHamiltonian(g: Graph, start: nat, v: nat, p: seq<nat>)
    requires SimplePath(g, start, Nodes(g.n), v, p)
    ensures Hamiltonian(g, start, p)
  {
    DistinctElemsCount(p);
  }

  /** A finite total for v is realised by the reconstructed path, which
      visits every node; a required cycle never ends at `start` itself. */
  lemma FinishSound(g: Graph, start: nat, closing: bool, v: nat)
    requires Valid(g) && 2 <= g.n && start < g.n && v < g.n
    requires Finish(g, start, closing, v).Some? && Finish(g, start, closing, v).value < INF
    ensures Hamiltonian(g, start, Walk(g, start, Nodes(g.n), v))
    ensures closing ==> v != start && Dist(g, v, start) < INF
    ensures TourCost(g, start, closing, Walk(g, start, Nodes(g.n), v)) == Finish(g, start, closing, v).value
  {
    var full := Nodes(g.n);
    var p := Walk(g, start, full, v);
    var e := Dp(g, start, full, v).value;
    assert v != start by {
      assert 0 in full && 1 in full;
      if v == start {
        DpNeverReturns(g, start, full);
      }
    }
    assert SimplePath(g, start, full, v, p) && WalkCost(g, p) == e.cost by { DpSound(g, start, full, v); }
    assert Hamiltonian(g, start, p) by { FullPathIsHamiltonian(g, start, v, p); }
    var back := if closing then Dist(g, v, start) else 0;
    assert Finish(g, start, closing, v).value == e.cost + back by { FinishValue(g, start, closing, v, e.cost); }
    assert TourCost(g, start, closing, p) == e.cost + back;
  }

  /** A total below INF is the plain sum of the entry and the closing edge. */
  lemma FinishValue(g: Graph, start: nat, closing: bool, v: nat, c: nat)
    requires Valid(g) && start < g.n && v < g.n && v != start
    requires Dp(g, start, Nodes(g.n), v).Some? && Dp(g, start, Nodes(g.n), v).value.cost == c
    requires Finish(g, start, closing, v).Some? && Finish(g, start, closing, v).value < INF
    ensures closing ==> Dist(g, v, start) < INF
    ensures Finish(g, start, closing, v).value == c + if closing then Dist(g, v, start) else 0
  {
  }

  /** Every candidate that costs less than INF is matched or beaten by the
      total for the node it ends at. */
  lemma FinishOptimal(g: Graph, start: nat, closing: bool, p: seq<nat>)
    requires Valid(g) && 2 <= g.n && start < g.n
    requires Hamiltonian(g, start, p) && TourCost(g, start, closing, p) < INF
    ensures Finish(g, start, closing, p[|p| - 1]).Some?
    ensures Finish(g, start, closing, p[|p| - 1]).value <= TourCost(g, start, closing, p)
  {
    var v := p[|p| - 1];
    assert v != start by { assert p[0] == start && 0 < |p| - 1; }
    HamiltonianIsFullPath(g, start, p);
    DpOptimal(g, start, Nodes(g.n), v, p);
  }

  /** Each step of a walk cheaper than INF between different nodes is an
      edge of the graph. */
  lemma StepsAreEdges(g: Graph, p: seq<nat>)
    requires Valid(g) && IsWalk(g, p) && WalkCost(g, p) < INF
    requires forall t :: 0 <= t < |p| - 1 ==> p[t] != p[t + 1]
    ensures forall t :: 0 <= t < |p| - 1 ==> g.w[p[t]][p[t + 1]].Some?
  {
    forall t | 0 <= t < |p| - 1 ensures g.w[p[t]][p[t + 1]].Some? {
      WalkCostStep(g, p, t);
    }
  }

  /** The route reported for an end node v with a finite total keeps every
      promise of Reported, at that total. */
  lemma RouteFacts(g: Graph, start: nat, closing: bool, v: nat)
    requires Valid(g) && 2 <= g.n && start < g.n && v < g.n
    requires Finish(g, start, closing, v).Some? && Finish(g, start, closing, v).value < INF
    ensures Reported(g, start, closing, Route(g, start, closing, v), Finish(g, start, closing, v).value)
  {
    var w := Walk(g, start, Nodes(g.n), v);
    var cost := Finish(g, start, closing, v).value;
    assert Hamiltonian(g, start, w) && (closing ==> v != start && Dist(g, v, start) < INF)
      && TourCost(g, start, closing, w) == cost by {
      FinishSound(g, start, closing, v);
    }
    if closing {
      assert Route(g, start, closing, v) == w + [start];
      ClosedRoute(g, start, w, cost);
    } else {
      assert Route(g, start, closing, v) == w;
      OpenRoute(g, start, w, cost);
    }
  }

  /** A path through every node, reported as it is. */
  lemma OpenRoute(g: Graph, start: nat, w: seq<nat>, cost: nat)
    requires Valid(g) && start < g.n && Hamiltonian(g, start, w)
    requires TourCost(g, start, false, w) == cost < INF
    ensures Reported(g, start, false, w, cost)
  {
    assert w[..g.n] == w;
    assert forall t :: 0 <= t < |w| - 1 ==> w[t] != w[t + 1];
    StepsAreEdges(g, w);
  }

  /** A path through every node, closed by the edge back to `start`. */
  lemma ClosedRoute(g: Graph, start: nat, w: seq<nat>, cost: nat)
    requires Valid(g) && start < g.n && Hamiltonian(g, start, w)
    requires w[|w| - 1] != start && Dist(g, w[|w| - 1], start) < INF
    requires TourCost(g, start, true, w) == cost < INF
    ensures Reported(g, start, true, w + [start], cost)
  {
    var path := w + [start];
    assert path[..g.n] == w;
    WalkCostSnoc(g, w, start);
    assert forall t :: 0 <= t < |path| - 1 ==> path[t] != path[t + 1] by {
      assert forall t :: 0 <= t < |w| - 1 ==> w[t] != w[t + 1];
    }
    StepsAreEdges(g, path);
  }

  /** No node from v on has a total below what the scan returns. */
  lemma {:induction false} FinalScanBelow(ts: seq<Option<nat>>, v: nat, best: nat, last: Option<nat>, x: nat)
    requires v <= x < |ts| && ts[x].Some?
    ensures FinalScan(ts, v, best, last).0 <= ts[x].value
    decreases x - v
  {
    var improves := ts[v].Some? && ts[v].value < best;
    var best', last' := if improves then ts[v].value else best, if improves then Some(v) else last;
    assert FinalScan(ts, v, best, last) == FinalScan(ts, v + 1, best', last');
    if x > v {
      FinalScanBelow(ts, v + 1, best', last', x);
    }
  }

  /** The final scan's total is no more than any candidate's cost. */
  lemma FinalScanOptimal(g: Graph, start: nat, closing: bool, p: seq<nat>)
    requires Valid(g) && 2 <= g.n && start < g.n && Hamiltonian(g, start, p)
    ensures FinalScan(Totals(g, start, closing), 0, INF, None).0 <= TourCost(g, start, closing, p)
  {
    if TourCost(g, start, closing, p) < INF {
      FinishOptimal(g, start, closing, p);
      FinalScanBelow(Totals(g, start, closing), 0, INF, None, p[|p| - 1]);
    }
  }

  /** `shortest_hamiltonian_path` on a graph of two or more nodes and a
      `start` among them answers None exactly when no candidate costs less
      than INF. */
  lemma ShortestHamiltonianPathNone(g: Graph, start: nat, closing: bool)
    requires Valid(g) && 2 <= g.n && start < g.n
    ensures ShortestHamiltonianPath(g, start, closing).None? <==>
      forall p :: Hamiltonian(g, start, p) ==> TourCost(g, start, closing, p) >= INF
  {
    var scan := FinalScan(Totals(g, start, closing), 0, INF, None);
    var best, last := scan.0, scan.1;
    forall p | Hamiltonian(g, start, p) ensures best <= TourCost(g, start, closing, p) {
      FinalScanOptimal(g, start, closing, p);
    }
    if best < INF {
      var path := Route(g, start, closing, last.value);
      assert Reported(g, start, closing, path, best) by { RouteFacts(g, start, closing, last.value); }
      assert Hamiltonian(g, start, path[..g.n]) && TourCost(g, start, closing, path[..g.n]) < INF;
    }
  }

  /** Otherwise the answer keeps every promise of Reported, its cost is
      below INF, and no candidate is cheaper. */
  lemma ShortestHamiltonianPathSome(g: Graph, start: nat, closing: bool)
    requires Valid(g) && 2 <= g.n && start < g.n
    ensures ShortestHamiltonianPath(g, start, closing).Some? ==>
      var (path, cost) := ShortestHamiltonianPath(g, start, closing).value;
      && cost < INF
      && Reported(g, start, closing, path, cost)
      && (forall p :: Hamiltonian(g, start, p) ==> cost <= TourCost(g, start, closing, p))
  {
    var scan := FinalScan(Totals(g, start, closing), 0, INF, None);
    var best, last := scan.0, scan.1;
    if best < INF {
      RouteFacts(g, start, closing, last.value);
      forall p | Hamiltonian(g, start, p) ensures best <= TourCost(g, start, closing, p) {
        FinalScanOptimal(g, start, closing, p);
      }
    }
  }
}
