/** `floyd_warshall` of src/graph.rs: all-pairs shortest path lengths with
    saturating addition, INF meaning unreachable. */
module FloydWarshall {
  import opened Graph

  function Min(a: nat, b: nat): nat { if a <= b then a else b }

  /** The distance table after the first k rounds (k = 0: the initial
      matrix). Round k lets paths pass through node k, replacing an entry
      only by a strictly smaller one. */
  function D(g: Graph, k: nat, i: nat, j: nat): (r: nat)
    requires Valid(g) && k <= g.n && i < g.n && j < g.n
    ensures r <= INF
    decreases k
  {
    if k == 0 then Dist(g, i, j)
    else Min(D(g, k - 1, i, j), SatAdd(D(g, k - 1, i, k - 1), D(g, k - 1, k - 1, j)))
  }

  /** Round k in one step. */
  lemma DStep(g: Graph, k: nat, i: nat, j: nat)
    requires Valid(g) && k < g.n && i < g.n && j < g.n
    ensures D(g, k + 1, i, j) == Min(D(g, k, i, j), SatAdd(D(g, k, i, k), D(g, k, k, j)))
  {
  }

  /** Entries only shrink, and the diagonal stays 0. */
  lemma {:induction false} DShrinks(g: Graph, k: nat, i: nat, j: nat)
    requires Valid(g) && k <= g.n && i < g.n && j < g.n
    ensures D(g, k, i, j) <= Dist(g, i, j)
    ensures i == j ==> D(g, k, i, j) == 0
    decreases k
  {
    if k > 0 {
      DShrinks(g, k - 1, i, j);
    }
  }

  /** Round k leaves row k and column k alone, because D(k, k, k) is 0;
      this is what makes the in-place update safe. */
  lemma RoundKeepsPivot(g: Graph, k: nat, i: nat)
    requires Valid(g) && k < g.n && i < g.n
    ensures D(g, k + 1, i, k) == D(g, k, i, k)
    ensures D(g, k + 1, k, i) == D(g, k, k, i)
  {
    DShrinks(g, k, k, k);
  }

  /** The initialisation loop: 0 on the diagonal, the edge weight where an
      edge exists, INF otherwise. */
  method Init(g: Graph) returns (d: seq<seq<nat>>)
    requires Valid(g)
    ensures |d| == g.n && forall i :: 0 <= i < g.n ==> |d[i]| == g.n
    ensures forall i, j :: 0 <= i < g.n && 0 <= j < g.n ==> d[i][j] == D(g, 0, i, j)
  {
    d := [];
    var i := 0;
    while i < g.n
      invariant 0 <= i <= g.n && |d| == i
      invariant forall a :: 0 <= a < i ==> |d[a]| == g.n
      invariant forall a, b :: 0 <= a < i && 0 <= b < g.n ==> d[a][b] == Dist(g, a, b)
    {
      var row := [];
      var j := 0;
      while j < g.n
        invariant 0 <= j <= g.n && |row| == j
        invariant forall b :: 0 <= b < j ==> row[b] == Dist(g, i, b)
      {
        var x: nat;
        if i == j {
          x := 0;
        } else if g.w[i][j].Some? {
          x := g.w[i][j].value;
        } else {
          x := INF;
        }
        row := row + [x];
        j := j + 1;
      }
      d := d + [row];
      i := i + 1;
    }
  }

  /** Which round entry (a, b) of the table holds while round k is at
      entry (i, j): the entries already visited are one round ahead. */
  predicate Visited(a: nat, b: nat, i: nat, j: nat) {
    a < i || (a == i && b < j)
  }

  predicate Square(d: seq<seq<nat>>, n: nat) {
    |d| == n && forall a :: 0 <= a < n ==> |d[a]| == n
  }

  /** The body of the `j` loop: relax entry (i, j) through k. */
  method RelaxCell(g: Graph, d0: seq<seq<nat>>, k: nat, i: nat, j: nat) returns (d: seq<seq<nat>>)
    requires Valid(g) && k < g.n && i < g.n && j < g.n && Square(d0, g.n)
    requires forall a, b :: 0 <= a < g.n && 0 <= b < g.n ==> d0[a][b] == D(g, if Visited(a, b, i, j) then k + 1 else k, a, b)
    ensures Square(d, g.n)
    ensures forall a, b :: 0 <= a < g.n && 0 <= b < g.n ==> d[a][b] == D(g, if Visited(a, b, i, j + 1) then k + 1 else k, a, b)
  {
    RoundKeepsPivot(g, k, i);
    RoundKeepsPivot(g, k, j);
    DStep(g, k, i, j);
    d := d0;
    var ikj := SatAdd(d[i][k], d[k][j]);
    if ikj < d[i][j] {
      d := d[i := d[i][j := ikj]];
    }
  }

  /** One pass of the `j` loop of round k over row i. Entries of rows
      before i already hold round k+1, rows from i on still round k. */
  method RelaxRow(g: Graph, d0: seq<seq<nat>>, k: nat, i: nat) returns (d: seq<seq<nat>>)
    requires Valid(g) && k < g.n && i < g.n && Square(d0, g.n)
    requires forall a, b :: 0 <= a < g.n && 0 <= b < g.n ==> d0[a][b] == D(g, if a < i then k + 1 else k, a, b)
    ensures Square(d, g.n)
    ensures forall a, b :: 0 <= a < g.n && 0 <= b < g.n ==> d[a][b] == D(g, if a <= i then k + 1 else k, a, b)
  {
    var n := g.n;
    d := d0;
    var j := 0;
    while j < n
      invariant 0 <= j <= n
      invariant Square(d, n)
      invariant forall a, b :: 0 <= a < n && 0 <= b < n ==> d[a][b] == D(g, if Visited(a, b, i, j) then k + 1 else k, a, b)
    {
      d := RelaxCell(g, d, k, i, j);
      j := j + 1;
    }
  }

  /** `floyd_warshall`: the triple loop, updating the table in place. The
      result is the table after all n rounds. */
  method FloydWarshall(g: Graph) returns (d: seq<seq<nat>>)
    requires Valid(g)
    ensures |d| == g.n && forall i :: 0 <= i < g.n ==> |d[i]| == g.n
    ensures forall i, j :: 0 <= i < g.n && 0 <= j < g.n ==> d[i][j] == D(g, g.n, i, j)
  {
    var n := g.n;
    d := Init(g);
    var k := 0;
    while k < n
      invariant 0 <= k <= n
      invariant |d| == n && forall a :: 0 <= a < n ==> |d[a]| == n
      invariant forall a, b :: 0 <= a < n && 0 <= b < n ==> d[a][b] == D(g, k, a, b)
    {
      var i := 0;
      while i < n
        invariant 0 <= i <= n
        invariant |d| == n && forall a :: 0 <= a < n ==> |d[a]| == n
        invariant forall a, b :: 0 <= a < n && 0 <= b < n ==> d[a][b] == D(g, if a < i then k + 1 else k, a, b)
      {
        d := RelaxRow(g, d, k, i);
        i := i + 1;
      }
      k := k + 1;
    }
  }

  /** Saturating addition is monotone in both arguments. */
  lemma SatAddMono(a: nat, b: nat, a': nat, b': nat)
    requires a <= a' && b <= b'
    ensures SatAdd(a, b) <= SatAdd(a', b')
  {
  }

  /** The arithmetic of one round of the triangle argument: with the
      inequalities of round p through m, the round-(p+1) values obey it too. */
  lemma TriangleArith(ij: nat, im: nat, mj: nat, ip: nat, pj: nat, pm: nat, mp: nat)
    requires ij <= INF && im <= INF && mj <= INF && ip <= INF && pj <= INF && pm <= INF && mp <= INF
    requires ij <= SatAdd(im, mj) && pj <= SatAdd(pm, mj) && ip <= SatAdd(im, mp)
    ensures Min(ij, SatAdd(ip, pj)) <= SatAdd(Min(im, SatAdd(ip, pm)), Min(mj, SatAdd(mp, pj)))
  {
  }

  /** Round p+1 through a node m < p, given round p's inequalities. */
  lemma TriangleBelow(g: Graph, p: nat, i: nat, j: nat, m: nat)
    requires Valid(g) && p < g.n && i < g.n && j < g.n && m < p
    requires D(g, p, i, j) <= SatAdd(D(g, p, i, m), D(g, p, m, j))
    requires D(g, p, p, j) <= SatAdd(D(g, p, p, m), D(g, p, m, j))
    requires D(g, p, i, p) <= SatAdd(D(g, p, i, m), D(g, p, m, p))
    ensures D(g, p + 1, i, j) <= SatAdd(D(g, p + 1, i, m), D(g, p + 1, m, j))
  {
    DStep(g, p, i, j);
    DStep(g, p, i, m);
    DStep(g, p, m, j);
    TriangleArith(D(g, p, i, j), D(g, p, i, m), D(g, p, m, j), D(g, p, i, p), D(g, p, p, j), D(g, p, p, m), D(g, p, m, p));
  }

  /** Round p+1 through p itself. */
  lemma TrianglePivot(g: Graph, p: nat, i: nat, j: nat)
    requires Valid(g) && p < g.n && i < g.n && j < g.n
    ensures D(g, p + 1, i, j) <= SatAdd(D(g, p + 1, i, p), D(g, p + 1, p, j))
  {
    RoundKeepsPivot(g, p, i);
    RoundKeepsPivot(g, p, j);
    DStep(g, p, i, j);
  }

  /** After round k, going through any node below k never helps:
      D(k, i, j) <= D(k, i, m) + D(k, m, j) (saturating) for all m < k. */
  lemma {:induction false} Triangle(g: Graph, k: nat)
    requires Valid(g) && k <= g.n
    ensures forall i: nat, j: nat, m: nat :: i < g.n && j < g.n && m < k ==> D(g, k, i, j) <= SatAdd(D(g, k, i, m), D(g, k, m, j))
    decreases k
  {
    if k > 0 {
      var p := k - 1;
      Triangle(g, p);
      forall i: nat, j: nat, m: nat | i < g.n && j < g.n && m < k
        ensures D(g, k, i, j) <= SatAdd(D(g, k, i, m), D(g, k, m, j))
      {
        if m == p {
          TrianglePivot(g, p, i, j);
        } else {
          TriangleBelow(g, p, i, j, m);
        }
      }
    }
  }

  /** The final table satisfies the triangle inequality through every node. */
  lemma TriangleFinal(g: Graph, i: nat, j: nat, m: nat)
    requires Valid(g) && i < g.n && j < g.n && m < g.n
    ensures D(g, g.n, i, j) <= SatAdd(D(g, g.n, i, m), D(g, g.n, m, j))
  {
    Triangle(g, g.n);
  }

  /** `w` is a walk from i to j passing only through nodes below k whose
      plain cost is exactly the entry D(k, i, j). */
  predicate Realises(g: Graph, k: nat, i: nat, j: nat, w: seq<nat>)
    requires Valid(g) && k <= g.n && i < g.n && j < g.n
  {
    && IsWalk(g, w) && w[0] == i && w[|w| - 1] == j
    && (forall t :: 0 < t < |w| - 1 ==> w[t] < k)
    && WalkCost(g, w) == D(g, k, i, j)
  }

  /** A walk realising D(k, i, j) when it is finite: from i to j, passing
      only through nodes below k, with plain cost exactly D(k, i, j). */
  function Witness(g: Graph, k: nat, i: nat, j: nat): (p: seq<nat>)
    requires Valid(g) && k <= g.n && i < g.n && j < g.n && D(g, k, i, j) < INF
    ensures Realises(g, k, i, j, p)
    decreases k, 1
  {
    if k == 0 then Edge(g, i, j)
    else if D(g, k - 1, i, j) <= SatAdd(D(g, k - 1, i, k - 1), D(g, k - 1, k - 1, j)) then WitnessKeep(g, k - 1, i, j)
    else WitnessPivot(g, k - 1, i, j)
  }

  /** The walk of round p, kept when round p did not improve entry (i, j). */
  function WitnessKeep(g: Graph, p: nat, i: nat, j: nat): (w: seq<nat>)
    requires Valid(g) && p < g.n && i < g.n && j < g.n && D(g, p + 1, i, j) < INF
    requires D(g, p, i, j) <= SatAdd(D(g, p, i, p), D(g, p, p, j))
    ensures Realises(g, p + 1, i, j, w)
    decreases p + 1, 0
  {
    assert D(g, p + 1, i, j) == D(g, p, i, j) by { DStep(g, p, i, j); }
    Witness(g, p, i, j)
  }

  /** The one-step walk behind a finite initial entry. */
  function Edge(g: Graph, i: nat, j: nat): (w: seq<nat>)
    requires Valid(g) && i < g.n && j < g.n && D(g, 0, i, j) < INF
    ensures Realises(g, 0, i, j, w) && |w| <= 2
  {
    assert D(g, 0, i, j) == Dist(g, i, j);
    if i == j then [i]
    else
      WalkCostSnoc(g, [i], j);
      assert [i] + [j] == [i, j];
      [i, j]
  }

  /** The walk through the pivot p when round p improved entry (i, j). */
  function WitnessPivot(g: Graph, p: nat, i: nat, j: nat): (w: seq<nat>)
    requires Valid(g) && p < g.n && i < g.n && j < g.n
    requires D(g, p, i, j) > SatAdd(D(g, p, i, p), D(g, p, p, j))
    ensures Realises(g, p + 1, i, j, w)
    decreases p + 1, 0
  {
    var a := Witness(g, p, i, p);
    var b := Witness(g, p, p, j);
    GlueThroughPivot(g, p, a, b);
    assert D(g, p + 1, i, j) == D(g, p, i, p) + D(g, p, p, j) by { DStep(g, p, i, j); }
    a + b[1..]
  }

  /** Two walks meeting at p, each passing only through nodes below p,
      glue into one passing only through nodes below p + 1. */
  lemma GlueThroughPivot(g: Graph, p: nat, a: seq<nat>, b: seq<nat>)
    requires Valid(g) && IsWalk(g, a) && IsWalk(g, b) && a[|a| - 1] == p == b[0]
    requires forall t :: 0 < t < |a| - 1 ==> a[t] < p
    requires forall t :: 0 < t < |b| - 1 ==> b[t] < p
    ensures IsWalk(g, a + b[1..]) && (a + b[1..])[0] == a[0] && (a + b[1..])[|a + b[1..]| - 1] == b[|b| - 1]
    ensures forall t :: 0 < t < |a + b[1..]| - 1 ==> (a + b[1..])[t] < p + 1
    ensures WalkCost(g, a + b[1..]) == WalkCost(g, a) + WalkCost(g, b)
  {
    WalkCostGlue(g, a, b);
    var q := a + b[1..];
    forall t | 0 < t < |q| - 1 ensures q[t] < p + 1 {
      if t < |a| - 1 { assert q[t] == a[t]; }
      else if t == |a| - 1 { assert q[t] == p; }
      else { assert q[t] == b[t - |a| + 1]; }
    }
  }

  /** No walk from i to j is cheaper than the final entry. */
  lemma {:induction false} FinalIsLowerBound(g: Graph, p: seq<nat>)
    requires Valid(g) && IsWalk(g, p)
    ensures D(g, g.n, p[0], p[|p| - 1]) <= WalkCost(g, p)
    decreases |p|
  {
    var i, j := p[0], p[|p| - 1];
    if |p| == 1 {
      DShrinks(g, g.n, i, i);
    } else {
      var q := p[..|p| - 1];
      var u := q[|q| - 1];
      FinalIsLowerBound(g, q);
      TriangleFinal(g, i, j, u);
      DShrinks(g, g.n, u, j);
      SatAddMono(D(g, g.n, i, u), D(g, g.n, u, j), WalkCost(g, q), Dist(g, u, j));
    }
  }

  /** What `floyd_warshall` returns: each entry is the cost of a cheapest
      walk, and INF exactly when no walk costs less than INF (in
      particular when there is no path at all). */
  lemma ShortestWalks(g: Graph, d: seq<seq<nat>>, i: nat, j: nat)
    requires Valid(g) && i < g.n && j < g.n
    requires |d| == g.n && forall a :: 0 <= a < g.n ==> |d[a]| == g.n
    requires forall a, b :: 0 <= a < g.n && 0 <= b < g.n ==> d[a][b] == D(g, g.n, a, b)
    ensures d[i][j] <= INF
    ensures forall p :: IsWalk(g, p) && p[0] == i && p[|p| - 1] == j ==> d[i][j] <= WalkCost(g, p)
    ensures d[i][j] < INF ==> exists p :: IsWalk(g, p) && p[0] == i && p[|p| - 1] == j && WalkCost(g, p) == d[i][j]
    ensures d[i][j] == INF <==> forall p :: IsWalk(g, p) && p[0] == i && p[|p| - 1] == j ==> WalkCost(g, p) >= INF
  {
    forall p | IsWalk(g, p) && p[0] == i && p[|p| - 1] == j ensures d[i][j] <= WalkCost(g, p) {
      FinalIsLowerBound(g, p);
    }
    if d[i][j] < INF {
      var w := Witness(g, g.n, i, j);
      assert IsWalk(g, w) && w[0] == i && w[|w| - 1] == j && WalkCost(g, w) == d[i][j];
    }
  }

  /** Every final entry is at most its initial value, and the diagonal is 0. */
  lemma FinalBelowInitial(g: Graph, i: nat, j: nat)
    requires Valid(g) && i < g.n && j < g.n
    ensures D(g, g.n, i, j) <= D(g, 0, i, j)
    ensures D(g, g.n, i, i) == 0
  {
    DShrinks(g, g.n, i, j);
    DShrinks(g, g.n, i, i);
  }
}
