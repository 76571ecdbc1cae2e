/** Model of the kernel of src/bin/11.rs: counting the paths between two
    devices of an acyclic wiring diagram by folding backwards over a
    topological order. */
module Day11 {
  import opened Seqs

  type Name = string

  /** The parsed devices. Each device's outputs are its `HashSet` in some
      iteration order (the sums below do not depend on it); the topological
      order is an input, and `topological_pos` is the index of a name in it. */
  datatype Devices = Devices(outputs: map<Name, seq<Name>>, order: seq<Name>)

  /** `topological_pos[x]`: where `x` stands in the order. */
  function Pos(order: seq<Name>, x: Name): (i: nat)
    requires x in order
    ensures i < |order| && order[i] == x
    decreases |order|
  {
    if order[0] == x then 0
    else
      assert x in order[1..] by {
        var k :| 0 <= k < |order| && order[k] == x;
        assert order[1..][k - 1] == x;
      }
      1 + Pos(order[1..], x)
  }

  /** In a repetition-free order the position of the `k`-th name is `k`. */
  lemma PosOf(order: seq<Name>, k: nat)
    requires Distinct(order) && k < |order|
    ensures Pos(order, order[k]) == k
  {
    var i := Pos(order, order[k]);
    assert order[i] == order[k];
  }

  function Outs(d: Devices, x: Name): seq<Name> {
    if x in d.outputs then d.outputs[x] else []
  }

  predicate Forward(d: Devices, x: Name, y: Name) {
    x in d.order && y in d.order && Pos(d.order, x) < Pos(d.order, y)
  }

  /** What the topological sort delivers: every name once, and every
      output after the device that feeds it. */
  predicate Valid(d: Devices) {
    && Distinct(d.order)
    && forall x, i :: x in d.outputs && 0 <= i < |d.outputs[x]| ==> Forward(d, x, d.outputs[x][i])
  }

  lemma OutsForward(d: Devices, x: Name, y: Name)
    requires Valid(d) && y in Outs(d, x)
    ensures Forward(d, x, y)
  {
    var i :| 0 <= i < |Outs(d, x)| && Outs(d, x)[i] == y;
  }

  // ---------------------------------------------------------------------
  // Reference: the number of paths

  /** The number of paths from `x` to `end`: one when they coincide, the
      sum over the outputs otherwise. */
  function Paths(d: Devices, x: Name, end: Name): nat
    requires Valid(d) && x in d.order
    decreases |d.order| - Pos(d.order, x), 1, 0
  {
    if x == end then 1
    else
      assert forall y :: y in Outs(d, x) ==> Forward(d, x, y) by {
        forall y | y in Outs(d, x) ensures Forward(d, x, y) {
          OutsForward(d, x, y);
        }
      }
      SumPaths(d, x, Outs(d, x), end)
  }

  function SumPaths(d: Devices, x: Name, ys: seq<Name>, end: Name): nat
    requires Valid(d) && x in d.order
    requires forall y :: y in ys ==> Forward(d, x, y)
    decreases |d.order| - Pos(d.order, x), 0, |ys|
  {
    if |ys| == 0 then 0
    else
      assert Forward(d, x, ys[0]);
      Paths(d, ys[0], end) + SumPaths(d, x, ys[1..], end)
  }

  /** A path: each name is an output of the one before it. */
  predicate IsPath(d: Devices, p: seq<Name>, x: Name, end: Name) {
    && |p| > 0 && p[0] == x && p[|p| - 1] == end
    && forall i :: 0 <= i < |p| - 1 ==> p[i + 1] in Outs(d, p[i])
  }

  ghost predicate Reachable(d: Devices, x: Name, end: Name) {
    exists p :: IsPath(d, p, x, end)
  }

  lemma {:induction false} SumPathsAtLeast(d: Devices, x: Name, ys: seq<Name>, end: Name, i: nat)
    requires Valid(d) && x in d.order && forall y :: y in ys ==> Forward(d, x, y)
    requires i < |ys|
    ensures Forward(d, x, ys[i]) && SumPaths(d, x, ys, end) >= Paths(d, ys[i], end)
    decreases |ys|
  {
    if i > 0 {
      assert ys[1..][i - 1] == ys[i];
      SumPathsAtLeast(d, x, ys[1..], end, i - 1);
    }
  }

  lemma {:induction false} SumPathsPositive(d: Devices, x: Name, ys: seq<Name>, end: Name) returns (i: nat)
    requires Valid(d) && x in d.order && forall y :: y in ys ==> Forward(d, x, y)
    requires SumPaths(d, x, ys, end) > 0
    ensures i < |ys| && Forward(d, x, ys[i]) && Paths(d, ys[i], end) > 0
    decreases |ys|
  {
    assert Forward(d, x, ys[0]);
    if Paths(d, ys[0], end) == 0 {
      var j := SumPathsPositive(d, x, ys[1..], end);
      i := j + 1;
      assert ys[i] == ys[1..][j];
    } else {
      i := 0;
    }
  }

  /** Every path contributes to the count. */
  lemma {:induction false} PathCounted(d: Devices, p: seq<Name>, x: Name, end: Name)
    requires Valid(d) && x in d.order && IsPath(d, p, x, end)
    ensures Paths(d, x, end) > 0
    decreases |p|
  {
    if x != end {
      assert |p| >= 2;
      var y := p[1];
      OutsForward(d, x, y);
      var i :| 0 <= i < |Outs(d, x)| && Outs(d, x)[i] == y;
      assert IsPath(d, p[1..], y, end) by {
        forall k | 0 <= k < |p[1..]| - 1 ensures p[1..][k + 1] in Outs(d, p[1..][k]) {
          assert p[1..][k + 1] == p[k + 2] && p[1..][k] == p[k + 1];
        }
      }
      PathCounted(d, p[1..], y, end);
      SumPathsAtLeast(d, x, Outs(d, x), end, i);
    }
  }

  /** A positive count has a path behind it. */
  lemma {:induction false} CountedPath(d: Devices, x: Name, end: Name) returns (p: seq<Name>)
    requires Valid(d) && x in d.order && Paths(d, x, end) > 0
    ensures IsPath(d, p, x, end)
    decreases |d.order| - Pos(d.order, x)
  {
    if x == end {
      p := [x];
    } else {
      assert forall y :: y in Outs(d, x) ==> Forward(d, x, y) by {
        forall y | y in Outs(d, x) ensures Forward(d, x, y) {
          OutsForward(d, x, y);
        }
      }
      var i := SumPathsPositive(d, x, Outs(d, x), end);
      var y := Outs(d, x)[i];
      var q := CountedPath(d, y, end);
      p := [x] + q;
      forall k | 0 <= k < |p| - 1 ensures p[k + 1] in Outs(d, p[k]) {
        if k > 0 {
          assert p[k + 1] == q[k] && p[k] == q[k - 1];
        }
      }
    }
  }

  /** The count is positive exactly when `end` can be reached. */
  lemma PathsPositiveIffReachable(d: Devices, x: Name, end: Name)
    requires Valid(d) && x in d.order
    ensures Paths(d, x, end) > 0 <==> Reachable(d, x, end)
  {
    if Paths(d, x, end) > 0 {
      var p := CountedPath(d, x, end);
    }
    if Reachable(d, x, end) {
      var p :| IsPath(d, p, x, end);
      PathCounted(d, p, x, end);
    }
  }

  /** Nothing after `end` in the order leads to it. */
  lemma {:induction false} PathsBeyond(d: Devices, y: Name, end: Name)
    requires Valid(d) && y in d.order && end in d.order
    requires Pos(d.order, y) > Pos(d.order, end)
    ensures Paths(d, y, end) == 0
    decreases |d.order| - Pos(d.order, y), 1
  {
    assert forall z :: z in Outs(d, y) ==> Forward(d, y, z) by {
      forall z | z in Outs(d, y) ensures Forward(d, y, z) {
        OutsForward(d, y, z);
      }
    }
    SumPathsBeyond(d, y, Outs(d, y), end);
  }

  lemma {:induction false} SumPathsBeyond(d: Devices, y: Name, zs: seq<Name>, end: Name)
    requires Valid(d) && y in d.order && end in d.order
    requires Pos(d.order, y) > Pos(d.order, end) && forall z :: z in zs ==> Forward(d, y, z)
    ensures SumPaths(d, y, zs, end) == 0
    decreases |d.order| - Pos(d.order, y), 0, |zs|
  {
    if |zs| > 0 {
      assert Forward(d, y, zs[0]);
      PathsBeyond(d, zs[0], end);
      SumPathsBeyond(d, y, zs[1..], end);
    }
  }

  // ---------------------------------------------------------------------
  // `count_paths`: the backwards fold with a cache

  function Get(cache: map<Name, nat>, x: Name): nat {
    if x in cache then cache[x] else 0
  }

  /** The cached counts of the outputs; outputs not in the cache add
      nothing (`filter_map` over `cache.get`). */
  function CacheSum(cache: map<Name, nat>, ys: seq<Name>): nat
    decreases |ys|
  {
    if |ys| == 0 then 0 else Get(cache, ys[0]) + CacheSum(cache, ys[1..])
  }

  /** One step of the fold: cache the node's count only when it is positive. */
  function Step(d: Devices, cache: map<Name, nat>, node: Name): (r: map<Name, nat>)
    ensures r.Keys <= cache.Keys + {node}
  {
    var count := CacheSum(cache, Outs(d, node));
    if count > 0 then cache[node := count] else cache
  }

  /** The cache after folding over `order[k..pos(end)]` from the back. It
      always holds `end` with count one and never a zero. */
  function Cache(d: Devices, end: Name, k: nat): (r: map<Name, nat>)
    requires end in d.order && k <= Pos(d.order, end)
    ensures end in r && forall x :: x in r ==> r[x] > 0
    decreases Pos(d.order, end) - k
  {
    if k == Pos(d.order, end) then map[end := 1]
    else Step(d, Cache(d, end, k + 1), d.order[k])
  }

  /** `count_paths`: the source panics unless both names are in the order
      with `start` no later than `end`. */
  function CountPaths(d: Devices, start: Name, end: Name): (r: nat)
    requires start in d.order && end in d.order
    requires Pos(d.order, start) <= Pos(d.order, end)
    ensures start == end ==> r == 1
  {
    Get(Cache(d, end, Pos(d.order, start)), start)
  }

  lemma {:induction false} SumsAgree(d: Devices, x: Name, ys: seq<Name>, end: Name, cache: map<Name, nat>)
    requires Valid(d) && x in d.order && forall y :: y in ys ==> Forward(d, x, y)
    requires forall y :: y in ys ==> y in d.order && Get(cache, y) == Paths(d, y, end)
    ensures CacheSum(cache, ys) == SumPaths(d, x, ys, end)
    decreases |ys|
  {
    if |ys| > 0 {
      assert ys[0] in ys;
      SumsAgree(d, x, ys[1..], end, cache);
    }
  }

  /** What the cache holds after folding over `order[k..pos(end)]`. */
  function Expected(d: Devices, end: Name, k: nat, x: Name): nat
    requires Valid(d) && end in d.order
  {
    if x == end then 1
    else if x in d.order && k <= Pos(d.order, x) < Pos(d.order, end) then Paths(d, x, end)
    else 0
  }

  /** Folding in `order[k]` caches its path count: its outputs are either
      cached already or lie beyond `end`. */
  lemma {:induction false} CacheStep(d: Devices, end: Name, k: nat)
    requires Valid(d) && end in d.order && k < Pos(d.order, end)
    ensures CacheSum(Cache(d, end, k + 1), Outs(d, d.order[k])) == Paths(d, d.order[k], end)
    decreases Pos(d.order, end) - k, 1
  {
    var node := d.order[k];
    var prev := Cache(d, end, k + 1);
    forall y | y in Outs(d, node) ensures Forward(d, node, y) && Get(prev, y) == Paths(d, y, end) {
      CachedOutput(d, end, k, y);
    }
    SumsAgree(d, node, Outs(d, node), end, prev);
  }

  /** Each output of `order[k]` already has its path count in the cache. */
  lemma {:induction false} CachedOutput(d: Devices, end: Name, k: nat, y: Name)
    requires Valid(d) && end in d.order && k < Pos(d.order, end) && y in Outs(d, d.order[k])
    ensures Forward(d, d.order[k], y) && Get(Cache(d, end, k + 1), y) == Paths(d, y, end)
    decreases Pos(d.order, end) - k, 0
  {
    var node := d.order[k];
    assert Forward(d, node, y) by { OutsForward(d, node, y); }
    assert Pos(d.order, node) == k by { PosOf(d.order, k); }
    assert Get(Cache(d, end, k + 1), y) == Expected(d, end, k + 1, y) by { CacheAt(d, end, k + 1, y); }
    if y != end && Pos(d.order, y) >= Pos(d.order, end) {
      PathsBeyond(d, y, end);
    }
  }

  /** The fold's invariant: the cache holds the path count of every name
      already folded and nothing else beside `end`. */
  lemma {:induction false} CacheAt(d: Devices, end: Name, k: nat, x: Name)
    requires Valid(d) && end in d.order && k <= Pos(d.order, end)
    ensures Get(Cache(d, end, k), x) == Expected(d, end, k, x)
    decreases Pos(d.order, end) - k, 3
  {
    if k < Pos(d.order, end) {
      if x == d.order[k] {
        CacheAtNode(d, end, k);
      } else {
        CacheAt(d, end, k + 1, x);
        CacheAtOther(d, end, k, x);
      }
    }
  }

  /** The name folded in at step k gets its path count. */
  lemma {:induction false} CacheAtNode(d: Devices, end: Name, k: nat)
    requires Valid(d) && end in d.order && k < Pos(d.order, end)
    ensures Get(Cache(d, end, k), d.order[k]) == Expected(d, end, k, d.order[k])
    decreases Pos(d.order, end) - k, 2
  {
    var node := d.order[k];
    assert Pos(d.order, node) == k && node != end by { PosOf(d.order, k); }
    assert Expected(d, end, k, node) == Paths(d, node, end);
    var prev := Cache(d, end, k + 1);
    assert Get(prev, node) == 0 by { CacheAt(d, end, k + 1, node); }
    assert CacheSum(prev, Outs(d, node)) == Paths(d, node, end) by { CacheStep(d, end, k); }
    NodeCached(d, end, k, prev);
  }

  /** Folding in `order[k]` stores the sum over its outputs. */
  lemma NodeCached(d: Devices, end: Name, k: nat, prev: map<Name, nat>)
    requires end in d.order && k < Pos(d.order, end)
    requires prev == Cache(d, end, k + 1) && Get(prev, d.order[k]) == 0
    ensures Get(Cache(d, end, k), d.order[k]) == CacheSum(prev, Outs(d, d.order[k]))
  {
    StepCaches(d, prev, d.order[k]);
  }

  /** A step caches the folded name's sum, zero when it was absent. */
  lemma StepCaches(d: Devices, prev: map<Name, nat>, node: Name)
    requires Get(prev, node) == 0
    ensures Get(Step(d, prev, node), node) == CacheSum(prev, Outs(d, node))
  {
  }

  /** Every other name keeps its entry, and its expected count does not
      change either. */
  lemma CacheAtOther(d: Devices, end: Name, k: nat, x: Name)
    requires Valid(d) && end in d.order && k < Pos(d.order, end) && x != d.order[k]
    requires Get(Cache(d, end, k + 1), x) == Expected(d, end, k + 1, x)
    ensures Get(Cache(d, end, k), x) == Expected(d, end, k, x)
  {
    var prev := Cache(d, end, k + 1);
    assert Cache(d, end, k) == Step(d, prev, d.order[k]);
    assert Get(Cache(d, end, k), x) == Get(prev, x);
    assert x in d.order ==> Pos(d.order, x) != k;
  }

  /** `count_paths` counts the paths from `start` to `end`. */
  lemma CountPathsCounts(d: Devices, start: Name, end: Name)
    requires Valid(d) && start in d.order && end in d.order
    requires Pos(d.order, start) <= Pos(d.order, end)
    ensures CountPaths(d, start, end) == Paths(d, start, end)
  {
    CacheAt(d, end, Pos(d.order, start), start);
  }

  /** The answer is zero exactly when `end` cannot be reached (the
      `unwrap_or(0)` for a name never cached). */
  lemma CountPathsZero(d: Devices, start: Name, end: Name)
    requires Valid(d) && start in d.order && end in d.order
    requires Pos(d.order, start) <= Pos(d.order, end)
    ensures CountPaths(d, start, end) == 0 <==> !Reachable(d, start, end)
  {
    CountPathsCounts(d, start, end);
    PathsPositiveIffReachable(d, start, end);
  }

  /** `part_one`: the paths from `you` to `out`. */
  function PartOne(d: Devices): (r: nat)
    requires Valid(d) && "you" in d.order && "out" in d.order
    requires Pos(d.order, "you") <= Pos(d.order, "out")
    ensures (CountPathsCounts(d, "you", "out"); r == Paths(d, "you", "out"))
  {
    CountPathsCounts(d, "you", "out");
    CountPaths(d, "you", "out")
  }

  // ---------------------------------------------------------------------
  // `topologically_ordered`: a stable sort by `topological_pos.get`

  /** `topological_pos.get(x)` as a number: `None` sorts before every
      `Some`. */
  function Key(d: Devices, x: Name): nat {
    if x in d.order then Pos(d.order, x) + 1 else 0
  }

  predicate Sorted(d: Devices, s: seq<Name>) {
    forall i :: 0 <= i < |s| - 1 ==> Key(d, s[i]) <= Key(d, s[i + 1])
  }

  /** Insert `x` after every name whose key is not larger. */
  function Insert(d: Devices, t: seq<Name>, x: Name): (r: seq<Name>)
    ensures |r| == |t| + 1 && multiset(r) == multiset(t) + multiset{x}
    ensures |t| > 0 ==> r[|r| - 1] == x || r[|r| - 1] == t[|t| - 1]
    decreases |t|
  {
    if |t| == 0 then [x]
    else if Key(d, t[|t| - 1]) <= Key(d, x) then t + [x]
    else
      var t' := t[..|t| - 1];
      assert t == t' + [t[|t| - 1]];
      Insert(d, t', x) + [t[|t| - 1]]
  }

  lemma {:induction false} InsertSorted(d: Devices, t: seq<Name>, x: Name)
    requires Sorted(d, t)
    ensures Sorted(d, Insert(d, t, x))
    decreases |t|
  {
    if |t| > 0 && Key(d, t[|t| - 1]) > Key(d, x) {
      var t' := t[..|t| - 1];
      assert Sorted(d, t');
      InsertSorted(d, t', x);
      var u := Insert(d, t', x);
      assert Key(d, u[|u| - 1]) <= Key(d, t[|t| - 1]) by {
        if |t'| > 0 {
          assert Key(d, t'[|t'| - 1]) <= Key(d, t[|t| - 1]);
        }
      }
      var r := u + [t[|t| - 1]];
      forall i | 0 <= i < |r| - 1 ensures Key(d, r[i]) <= Key(d, r[i + 1]) {
        if i < |u| - 1 {
          assert r[i] == u[i] && r[i + 1] == u[i + 1];
        }
      }
    }
  }

  /** `topologically_ordered`: the devices sorted by position, a stable
      insertion sort. */
  function TopologicallyOrdered(d: Devices, ds: seq<Name>): (r: seq<Name>)
    ensures multiset(r) == multiset(ds) && Sorted(d, r)
    decreases |ds|
  {
    if |ds| == 0 then []
    else
      assert ds == ds[..|ds| - 1] + [ds[|ds| - 1]];
      var t := TopologicallyOrdered(d, ds[..|ds| - 1]);
      InsertSorted(d, t, ds[|ds| - 1]);
      Insert(d, t, ds[|ds| - 1])
  }

  /** Two names come out by position, keeping their order on a tie. */
  lemma OrderedPair(d: Devices, a: Name, b: Name)
    ensures TopologicallyOrdered(d, [a, b]) == if Key(d, a) <= Key(d, b) then [a, b] else [b, a]
  {
    assert [a, b][..1] == [a];
    assert [a][..0] == [];
  }

  /** The four names `part_two` looks up, in an order where `svr` comes
      before both waypoints and `out` after them: the source panics
      otherwise. */
  predicate Waypoints(d: Devices) {
    && "svr" in d.order && "fft" in d.order && "dac" in d.order && "out" in d.order
    && Pos(d.order, "svr") <= Pos(d.order, "fft") <= Pos(d.order, "out")
    && Pos(d.order, "svr") <= Pos(d.order, "dac") <= Pos(d.order, "out")
  }

  /** The waypoint that comes first in the order, and the other. */
  function First(d: Devices): (w: Name)
    requires Waypoints(d)
    ensures w in d.order
  {
    if Pos(d.order, "fft") <= Pos(d.order, "dac") then "fft" else "dac"
  }

  function Second(d: Devices): (w: Name)
    requires Waypoints(d)
    ensures w in d.order
  {
    if Pos(d.order, "fft") <= Pos(d.order, "dac") then "dac" else "fft"
  }

  /** `topologically_ordered(&["fft", "dac"])` puts the earlier waypoint
      first. */
  lemma WaypointsOrdered(d: Devices)
    requires Waypoints(d)
    ensures TopologicallyOrdered(d, ["fft", "dac"]) == [First(d), Second(d)]
  {
    OrderedPair(d, "fft", "dac");
  }

  /** `part_two`: the product of the path counts of the three legs
      `svr`, first waypoint, second waypoint, `out`. */
  function PartTwo(d: Devices): (r: nat)
    requires Valid(d) && Waypoints(d)
    ensures r == Paths(d, "svr", First(d)) * Paths(d, First(d), Second(d)) * Paths(d, Second(d), "out")
  {
    var o := TopologicallyOrdered(d, ["fft", "dac"]);
    WaypointOrder(d, o);
    ThreeLegs(d, o[0], o[1])
  }

  /** The ordered waypoints are the first and the second one, in leg order. */
  lemma WaypointOrder(d: Devices, o: seq<Name>)
    requires Waypoints(d) && o == TopologicallyOrdered(d, ["fft", "dac"])
    ensures |o| == 2 && o[0] == First(d) && o[1] == Second(d) && LegsInOrder(d, o[0], o[1])
  {
    WaypointsOrdered(d);
    WaypointLegs(d);
  }

  /** `svr`, a, b, `out` appear in this order. */
  predicate LegsInOrder(d: Devices, a: Name, b: Name) {
    && "svr" in d.order && a in d.order && b in d.order && "out" in d.order
    && Pos(d.order, "svr") <= Pos(d.order, a) <= Pos(d.order, b) <= Pos(d.order, "out")
  }

  lemma WaypointLegs(d: Devices)
    requires Waypoints(d)
    ensures LegsInOrder(d, First(d), Second(d))
  {
  }

  /** The product of the counts of the legs `svr` -> a -> b -> `out`, for
      a and b in that order. */
  function ThreeLegs(d: Devices, a: Name, b: Name): (r: nat)
    requires Valid(d) && LegsInOrder(d, a, b)
    ensures r == Paths(d, "svr", a) * Paths(d, a, b) * Paths(d, b, "out")
  {
    var p1 := CountPaths(d, "svr", a);
    var p2 := CountPaths(d, a, b);
    var p3 := CountPaths(d, b, "out");
    assert p1 == Paths(d, "svr", a) by { CountPathsCounts(d, "svr", a); }
    assert p2 == Paths(d, a, b) by { CountPathsCounts(d, a, b); }
    assert p3 == Paths(d, b, "out") by { CountPathsCounts(d, b, "out"); }
    assert p1 * p2 >= 0 by { MulNat(p1, p2); }
    assert p1 * p2 * p3 >= 0 by { MulNat(p1 * p2, p3); }
    p1 * p2 * p3
  }

  lemma MulNat(a: nat, b: nat)
    ensures a * b >= 0
  {
  }
}
