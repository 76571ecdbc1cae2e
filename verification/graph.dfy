/** The weighted graphs of src/graph.rs. A graph on nodes 0..n-1 is an
    n-by-n matrix of optional edge weights; weights are naturals bounded by
    INF, the `max_value` of the weight type, which also stands for "no
    edge" and "unreachable". */
module Graph {
  import opened Wrappers

  /** `usize::MAX`, the sentinel of the weight type. */
  const INF: nat := 0xFFFF_FFFF_FFFF_FFFF

  datatype Graph = Graph(n: nat, w: seq<seq<Option<nat>>>)

  predicate Valid(g: Graph) {
    && |g.w| == g.n
    && (forall i :: 0 <= i < g.n ==> |g.w[i]| == g.n)
    && (forall i, j :: 0 <= i < g.n && 0 <= j < g.n && g.w[i][j].Some? ==> g.w[i][j].value <= INF)
  }

  /** `saturating_add` on the weight type. */
  function SatAdd(a: nat, b: nat): (r: nat)
    ensures r <= INF
    ensures a + b < INF ==> r == a + b
    ensures a + b >= INF ==> r == INF
  {
    if a + b < INF then a + b else INF
  }

  lemma SatAddLaws(a: nat, b: nat, c: nat)
    requires a <= INF && b <= INF && c <= INF
    ensures SatAdd(a, b) == SatAdd(b, a)
    ensures SatAdd(SatAdd(a, b), c) == SatAdd(a, SatAdd(b, c))
    ensures SatAdd(0, a) == a && SatAdd(a, 0) == a
    ensures a <= SatAdd(a, b)
  {
  }

  /** The matrix both algorithms start from: 0 on the diagonal, the edge
      weight where there is an edge, INF elsewhere. */
  function Dist(g: Graph, i: nat, j: nat): (r: nat)
    requires Valid(g) && i < g.n && j < g.n
    ensures r <= INF
    ensures i == j ==> r == 0
    ensures i != j && g.w[i][j].Some? ==> r == g.w[i][j].value
    ensures i != j && g.w[i][j].None? ==> r == INF
  {
    if i == j then 0
    else match g.w[i][j]
      case Some(x) => x
      case None => INF
  }

  /** A walk: a non-empty sequence of nodes. */
  predicate IsWalk(g: Graph, p: seq<nat>) {
    |p| > 0 && forall k :: 0 <= k < |p| ==> p[k] < g.n
  }

  /** The plain (unsaturated) sum of the step weights of a walk. */
  function WalkCost(g: Graph, p: seq<nat>): nat
    requires Valid(g) && IsWalk(g, p)
    decreases |p|
  {
    if |p| == 1 then 0 else WalkCost(g, p[..|p| - 1]) + Dist(g, p[|p| - 2], p[|p| - 1])
  }

  /** Extending a walk by a node adds the weight of the new step. */
  lemma WalkCostSnoc(g: Graph, p: seq<nat>, v: nat)
    requires Valid(g) && IsWalk(g, p) && v < g.n
    ensures IsWalk(g, p + [v])
    ensures WalkCost(g, p + [v]) == WalkCost(g, p) + Dist(g, p[|p| - 1], v)
  {
    assert (p + [v])[..|p|] == p;
  }

  /** Gluing a walk ending at m to one starting at m adds their costs. */
  lemma {:induction false} WalkCostGlue(g: Graph, p: seq<nat>, q: seq<nat>)
    requires Valid(g) && IsWalk(g, p) && IsWalk(g, q) && p[|p| - 1] == q[0]
    ensures IsWalk(g, p + q[1..])
    ensures WalkCost(g, p + q[1..]) == WalkCost(g, p) + WalkCost(g, q)
    decreases |q|
  {
    if |q| == 1 {
      assert p + q[1..] == p;
    } else {
      var q' := q[..|q| - 1];
      WalkCostGlue(g, p, q');
      assert p + q[1..] == (p + q'[1..]) + [q[|q| - 1]];
      assert q == q' + [q[|q| - 1]];
      WalkCostSnoc(g, p + q'[1..], q[|q| - 1]);
      WalkCostSnoc(g, q', q[|q| - 1]);
    }
  }

  /** Each step of a walk costs at most the whole walk. */
  lemma {:induction false} WalkCostStep(g: Graph, p: seq<nat>, k: nat)
    requires Valid(g) && IsWalk(g, p) && k + 1 < |p|
    ensures Dist(g, p[k], p[k + 1]) <= WalkCost(g, p)
    decreases |p|
  {
    if k + 2 < |p| {
      WalkCostStep(g, p[..|p| - 1], k);
    }
  }
}
