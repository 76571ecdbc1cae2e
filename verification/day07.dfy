/** Model of src/bin/07.rs: a tachyon beam falling through a manifold of
    splitters, counted as splits (part one) and as timelines (part two). */
module Day07 {
  type Pos = (int, int)

  /** The parsed grid: the start cell, the splitter cells, and the largest
      coordinates seen. */
  datatype Manifold = Manifold(start: Pos, splitters: set<Pos>, bounds: Pos)

  // ---------------------------------------------------------------------
  // beam

  /** Where a beam at column `x` in row `y` continues in the next row. */
  predicate Step(m: Manifold, x: int, y: int, x2: int) {
    if (x, y) in m.splitters then x2 == x - 1 || x2 == x + 1 else x2 == x
  }

  /** The beams of row `y` that hit a splitter. */
  function Hits(m: Manifold, xs: set<int>, y: int): (h: set<int>)
    ensures h <= xs
    ensures forall x :: x in h <==> x in xs && (x, y) in m.splitters
  {
    set x | x in xs && (x, y) in m.splitters
  }

  /** The beams of the next row: a split beam becomes its two neighbours,
      every other beam goes straight on. */
  function Next(m: Manifold, xs: set<int>, y: int): set<int> {
    (set x | x in xs && (x, y) !in m.splitters)
    + (set x | x in xs && (x, y) in m.splitters :: x - 1)
    + (set x | x in xs && (x, y) in m.splitters :: x + 1)
  }

  /** The next row holds exactly the columns one legal step away from a
      beam of this row. */
  lemma NextIsSteps(m: Manifold, xs: set<int>, y: int, x2: int)
    ensures x2 in Next(m, xs, y) <==> exists x :: x in xs && Step(m, x, y, x2)
  {
    if exists x :: x in xs && Step(m, x, y, x2) {
      var x :| x in xs && Step(m, x, y, x2);
      if (x, y) in m.splitters {
        if x2 == x - 1 {
          assert x2 in (set x | x in xs && (x, y) in m.splitters :: x - 1);
        } else {
          assert x2 in (set x | x in xs && (x, y) in m.splitters :: x + 1);
        }
      }
    }
  }

  /** `beam` from row `y` on with the beams `xs`: the splits counted in
      rows `y..=bounds.1`. */
  function BeamFrom(m: Manifold, xs: set<int>, y: int): nat
    decreases m.bounds.1 - y + 1
  {
    if y > m.bounds.1 then 0
    else |Hits(m, xs, y)| + BeamFrom(m, Next(m, xs, y), y + 1)
  }

  function Beam(m: Manifold): nat {
    BeamFrom(m, {m.start.0}, m.start.1)
  }

  /** The beams `k` rows below the start. */
  function Beams(m: Manifold, k: nat): set<int> {
    if k == 0 then {m.start.0} else Next(m, Beams(m, k - 1), m.start.1 + k - 1)
  }

  /** A path a beam can take: one column per row from the start down. */
  predicate IsPath(m: Manifold, w: seq<int>) {
    && |w| > 0 && w[0] == m.start.0
    && forall j :: 0 <= j < |w| - 1 ==> Step(m, w[j], m.start.1 + j, w[j + 1])
  }

  /** A path extended by one legal step is a path. */
  lemma PathExtend(m: Manifold, w: seq<int>, x: int)
    requires IsPath(m, w) && Step(m, w[|w| - 1], m.start.1 + |w| - 1, x)
    ensures IsPath(m, w + [x])
  {
    var w2 := w + [x];
    forall j | 0 <= j < |w2| - 1 ensures Step(m, w2[j], m.start.1 + j, w2[j + 1]) {
      if j < |w| - 1 {
        assert w2[j] == w[j] && w2[j + 1] == w[j + 1];
      }
    }
  }

  /** Every non-empty prefix of a path is a path. */
  lemma PathPrefix(m: Manifold, w: seq<int>, n: nat)
    requires IsPath(m, w) && 0 < n <= |w|
    ensures IsPath(m, w[..n])
  {
    var w0 := w[..n];
    forall j | 0 <= j < n - 1 ensures Step(m, w0[j], m.start.1 + j, w0[j + 1]) {
      assert w0[j] == w[j] && w0[j + 1] == w[j + 1];
    }
  }

  lemma {:induction false} BeamHasPath(m: Manifold, k: nat, x: int)
    requires x in Beams(m, k)
    ensures exists w :: IsPath(m, w) && |w| == k + 1 && w[k] == x
  {
    if k == 0 {
      assert IsPath(m, [x]);
    } else {
      var prev, y := Beams(m, k - 1), m.start.1 + k - 1;
      assert x in Next(m, prev, y);
      NextIsSteps(m, prev, y, x);
      var x0 :| x0 in prev && Step(m, x0, y, x);
      BeamHasPath(m, k - 1, x0);
      var w :| IsPath(m, w) && |w| == k && w[k - 1] == x0;
      PathExtend(m, w, x);
      var w2 := w + [x];
      assert |w2| == k + 1 && w2[k] == x;
    }
  }

  lemma {:induction false} PathReachesBeam(m: Manifold, w: seq<int>)
    requires IsPath(m, w)
    ensures w[|w| - 1] in Beams(m, |w| - 1)
    decreases |w|
  {
    var k := |w| - 1;
    if k > 0 {
      PathPrefix(m, w, k);
      var w0 := w[..k];
      PathReachesBeam(m, w0);
      assert w0[k - 1] == w[k - 1];
      assert Step(m, w[k - 1], m.start.1 + k - 1, w[k]);
      NextIsSteps(m, Beams(m, k - 1), m.start.1 + k - 1, w[k]);
    }
  }

  /** Column `x` holds a beam `k` rows below the start exactly when some
      beam path of that length ends there. */
  lemma BeamsArePaths(m: Manifold, k: nat, x: int)
    ensures x in Beams(m, k) <==> exists w :: IsPath(m, w) && |w| == k + 1 && w[k] == x
  {
    if x in Beams(m, k) {
      BeamHasPath(m, k, x);
    }
    if exists w :: IsPath(m, w) && |w| == k + 1 && w[k] == x {
      var w :| IsPath(m, w) && |w| == k + 1 && w[k] == x;
      PathReachesBeam(m, w);
    }
  }

  /** The splitters from row `start.1 + k` down that a beam reaches. */
  function ReachedFrom(m: Manifold, k: nat): set<Pos> {
    set p | p in m.splitters && m.start.1 + k <= p.1 <= m.bounds.1 && p.0 in Beams(m, p.1 - m.start.1)
  }

  /** The columns `xs` of row `y`, as positions. */
  function RowPositions(xs: set<int>, y: int): set<Pos> {
    set x | x in xs :: (x, y)
  }

  lemma RowPositionsMembers(xs: set<int>, y: int, p: Pos)
    ensures p in RowPositions(xs, y) <==> p.1 == y && p.0 in xs
  {
    if p.1 == y && p.0 in xs {
      var (a, b) := p;
      assert p == (a, y);
    }
  }

  /** The columns of a set of positions. */
  function Columns(ps: set<Pos>): set<int> {
    set p | p in ps :: p.0
  }

  /** Positions of one row are told apart by their columns. */
  lemma {:induction false} ColumnsCard(ps: set<Pos>, y: int)
    requires forall p :: p in ps ==> p.1 == y
    ensures |Columns(ps)| == |ps|
    decreases |ps|
  {
    if ps != {} {
      var p :| p in ps;
      var rest := ps - {p};
      ColumnsCard(rest, y);
      assert Columns(ps) == Columns(rest) + {p.0};
    }
  }

  lemma RowPositionsCard(xs: set<int>, y: int)
    ensures |RowPositions(xs, y)| == |xs|
  {
    var ps := RowPositions(xs, y);
    forall p | p in ps ensures p.1 == y {
      RowPositionsMembers(xs, y, p);
    }
    ColumnsCard(ps, y);
    forall x ensures x in Columns(ps) <==> x in xs {
      RowPositionsMembers(xs, y, (x, y));
      if x in Columns(ps) {
        var q :| q in ps && q.0 == x;
        RowPositionsMembers(xs, y, q);
      }
    }
    assert Columns(ps) == xs;
  }

  /** The reached splitters split into those of the first row and the rest. */
  lemma ReachedSplit(m: Manifold, k: nat)
    requires m.start.1 + k <= m.bounds.1
    ensures var y := m.start.1 + k;
      ReachedFrom(m, k) == RowPositions(Hits(m, Beams(m, k), y), y) + ReachedFrom(m, k + 1)
  {
    var y := m.start.1 + k;
    var row := RowPositions(Hits(m, Beams(m, k), y), y);
    forall p: Pos ensures p in ReachedFrom(m, k) <==> p in row || p in ReachedFrom(m, k + 1) {
      RowPositionsMembers(Hits(m, Beams(m, k), y), y, p);
      if p in ReachedFrom(m, k) && p.1 == y {
        assert p.0 in Hits(m, Beams(m, k), y);
      }
    }
  }

  /** Part one counts each splitter a beam reaches exactly once: the splits
      from row `start.1 + k` on are the reached splitters from there. */
  lemma {:induction false} BeamCountsReached(m: Manifold, k: nat)
    ensures BeamFrom(m, Beams(m, k), m.start.1 + k) == |ReachedFrom(m, k)|
    decreases m.bounds.1 - (m.start.1 + k) + 1
  {
    var y := m.start.1 + k;
    if y > m.bounds.1 {
      assert ReachedFrom(m, k) == {};
    } else {
      var xs := Beams(m, k);
      var h := Hits(m, xs, y);
      var row := RowPositions(h, y);
      var rest := ReachedFrom(m, k + 1);
      assert |row| == |h| by { RowPositionsCard(h, y); }
      assert BeamFrom(m, Beams(m, k + 1), y + 1) == |rest| by { BeamCountsReached(m, k + 1); }
      assert Beams(m, k + 1) == Next(m, xs, y);
      assert BeamFrom(m, xs, y) == |h| + BeamFrom(m, Next(m, xs, y), y + 1);
      assert ReachedFrom(m, k) == row + rest by { ReachedSplit(m, k); }
      assert |row + rest| == |row| + |rest| by { RowRestDisjoint(m, k); DisjointUnionCard(row, rest); }
    }
  }

  /** Splitters of the first row are not among those further down. */
  lemma RowRestDisjoint(m: Manifold, k: nat)
    requires m.start.1 + k <= m.bounds.1
    ensures var y := m.start.1 + k;
      RowPositions(Hits(m, Beams(m, k), y), y) !! ReachedFrom(m, k + 1)
  {
    var y := m.start.1 + k;
    var h := Hits(m, Beams(m, k), y);
    forall p | p in RowPositions(h, y) ensures p !in ReachedFrom(m, k + 1) {
      RowPositionsMembers(h, y, p);
    }
  }

  lemma DisjointUnionCard(a: set<Pos>, b: set<Pos>)
    requires a !! b
    ensures |a + b| == |a| + |b|
  {
  }

  /** Some beam path reaches the splitter `p`. */
  ghost predicate PathReaches(m: Manifold, p: Pos)
    requires m.start.1 <= p.1
  {
    exists w :: IsPath(m, w) && |w| == p.1 - m.start.1 + 1 && w[p.1 - m.start.1] == p.0
  }

  /** `beam` counts the splitters that some beam path reaches. */
  lemma BeamCountsReachedSplitters(m: Manifold)
    ensures Beam(m) == |set p | p in m.splitters && m.start.1 <= p.1 <= m.bounds.1 && PathReaches(m, p)|
  {
    assert Beam(m) == |ReachedFrom(m, 0)| by { BeamCountsReached(m, 0); }
    assert ReachedFrom(m, 0) == set p | p in m.splitters && m.start.1 <= p.1 <= m.bounds.1 && PathReaches(m, p) by {
      ReachedAreReachedByPaths(m);
    }
  }

  /** The splitters that the beams reach are those some beam path reaches. */
  lemma ReachedAreReachedByPaths(m: Manifold)
    ensures ReachedFrom(m, 0) == set p | p in m.splitters && m.start.1 <= p.1 <= m.bounds.1 && PathReaches(m, p)
  {
    var byPaths := set p | p in m.splitters && m.start.1 <= p.1 <= m.bounds.1 && PathReaches(m, p);
    forall p | p in m.splitters && m.start.1 <= p.1 <= m.bounds.1
      ensures p in ReachedFrom(m, 0) <==> p in byPaths
    {
      BeamsArePaths(m, p.1 - m.start.1, p.0);
    }
    assert ReachedFrom(m, 0) <= byPaths;
    assert byPaths <= ReachedFrom(m, 0);
  }

  // ---------------------------------------------------------------------
  // timelines

  /** The rows left from `pos` down to the last one; the recursion measure. */
  function RowsLeft(m: Manifold, pos: Pos): nat {
    if pos.1 > m.bounds.1 then 0 else m.bounds.1 - pos.1 + 1
  }

  /** The uncached recursion of `_timelines`: one timeline once below the
      grid; a splitter adds both diagonals below; anything else goes on to
      the cell below. */
  function Timelines(m: Manifold, pos: Pos): (t: nat)
    ensures t >= 1
    decreases RowsLeft(m, pos)
  {
    if pos.1 > m.bounds.1 then 1
    else if pos in m.splitters then Timelines(m, (pos.0 - 1, pos.1 + 1)) + Timelines(m, (pos.0 + 1, pos.1 + 1))
    else Timelines(m, (pos.0, pos.1 + 1))
  }

  function Pow2(n: nat): (p: nat)
    ensures p >= 1
  {
    if n == 0 then 1 else 2 * Pow2(n - 1)
  }

  /** Each row at most doubles the timelines. */
  lemma {:induction false} TimelinesBound(m: Manifold, pos: Pos)
    ensures 1 <= Timelines(m, pos) <= Pow2(RowsLeft(m, pos))
    decreases RowsLeft(m, pos)
  {
    if pos.1 <= m.bounds.1 {
      var n := RowsLeft(m, pos);
      assert RowsLeft(m, (pos.0 - 1, pos.1 + 1)) == n - 1;
      assert RowsLeft(m, (pos.0 + 1, pos.1 + 1)) == n - 1;
      assert RowsLeft(m, (pos.0, pos.1 + 1)) == n - 1;
      TimelinesBound(m, (pos.0 - 1, pos.1 + 1));
      TimelinesBound(m, (pos.0 + 1, pos.1 + 1));
      TimelinesBound(m, (pos.0, pos.1 + 1));
    }
  }

  /** Every cached value is the uncached one. */
  predicate CacheValid(m: Manifold, cache: map<Pos, nat>) {
    forall p :: p in cache ==> cache[p] == Timelines(m, p)
  }

  /** `_timelines` with its cache threaded through: the result is the
      uncached value, the cache stays valid, keeps its entries and gains
      `pos`. */
  function MemoTimelines(m: Manifold, cache: map<Pos, nat>, pos: Pos): (r: (nat, map<Pos, nat>))
    requires CacheValid(m, cache)
    ensures r.0 == Timelines(m, pos)
    ensures CacheValid(m, r.1)
    ensures cache.Keys <= r.1.Keys && pos in r.1
    decreases RowsLeft(m, pos)
  {
    if pos in cache then (cache[pos], cache)
    else if pos.1 > m.bounds.1 then (1, cache[pos := 1])
    else if pos in m.splitters then
      var a := MemoTimelines(m, cache, (pos.0 - 1, pos.1 + 1));
      var b := MemoTimelines(m, a.1, (pos.0 + 1, pos.1 + 1));
      var t := a.0 + b.0;
      (t, b.1[pos := t])
    else
      var a := MemoTimelines(m, cache, (pos.0, pos.1 + 1));
      (a.0, a.1[pos := a.0])
  }

  /** `timelines`, starting from an empty cache: the cache never changes
      the answer. */
  function PartTwo(m: Manifold): (t: nat)
    ensures t == Timelines(m, m.start) && t >= 1
  {
    MemoTimelines(m, map[], m.start).0
  }
}
