/** Model of the free functions of src/lib.rs: digit names, half-open range
    splitting, range union, matrix transpose and rotation, and the Manhattan
    distance. */
module Lib {
  import opened Wrappers

  type Point = (int, int)

  function Abs(x: int): nat {
    if x < 0 then -x else x
  }

  /** `manhattan_distance`: the sum of the absolute coordinate differences,
      each computed as larger minus smaller. */
  function ManhattanDistance(p1: Point, p2: Point): (d: int)
    ensures d == Abs(p1.0 - p2.0) + Abs(p1.1 - p2.1)
  {
    var d1 := if p1.0 > p2.0 then p1.0 - p2.0 else p2.0 - p1.0;
    var d2 := if p1.1 > p2.1 then p1.1 - p2.1 else p2.1 - p1.1;
    d1 + d2
  }

  /** The distance is a metric: symmetric, non-negative, zero exactly on
      equal points, and it satisfies the triangle inequality. */
  lemma ManhattanIsMetric(p: Point, q: Point, r: Point)
    ensures ManhattanDistance(p, q) == ManhattanDistance(q, p)
    ensures ManhattanDistance(p, q) >= 0
    ensures ManhattanDistance(p, q) == 0 <==> p == q
    ensures ManhattanDistance(p, r) <= ManhattanDistance(p, q) + ManhattanDistance(q, r)
  {
  }

  /** The spelled-out digit names, indexed by their value. */
  const DigitNames: seq<string> := ["zero", "one", "two", "three", "four", "five", "six", "seven", "eight", "nine"]

  /** `name_to_digit`: the value of a spelled-out digit, or None. */
  function NameToDigit(s: string): (r: Option<nat>)
  {
    match s
    case "zero" => Some(0)
    case "one" => Some(1)
    case "two" => Some(2)
    case "three" => Some(3)
    case "four" => Some(4)
    case "five" => Some(5)
    case "six" => Some(6)
    case "seven" => Some(7)
    case "eight" => Some(8)
    case "nine" => Some(9)
    case _ => None
  }

  /** Exactly the ten names are recognised, each as its own index. */
  lemma NameToDigitExact(s: string, d: nat)
    ensures NameToDigit(s) == Some(d) <==> d < 10 && s == DigitNames[d]
    ensures NameToDigit(s) == None <==> s !in DigitNames
  {
  }

  // ---------------------------------------------------------------------
  // Half-open ranges (s, e) standing for s <= z < e

  type Range = (int, int)

  predicate Proper(x: Range) {
    x.0 < x.1
  }

  predicate InRange(x: Range, z: int) {
    x.0 <= z < x.1
  }

  /** The piece lies inside y, or shares no point with it. */
  predicate AlignedWith(p: Range, y: Range) {
    (y.0 <= p.0 && p.1 <= y.1) || (p.1 <= y.0 || y.1 <= p.0)
  }

  /** The pieces form a chain from a to b: each starts where the previous ended. */
  predicate Chain(ps: seq<Range>, a: int, b: int) {
    && |ps| > 0
    && ps[0].0 == a
    && ps[|ps| - 1].1 == b
    && (forall i :: 0 <= i < |ps| - 1 ==> ps[i].1 == ps[i + 1].0)
  }

  /** `range_split1`: cut x at the ends of y that fall strictly inside it. The
      source's final `process::exit` branch cannot be taken: one of the two
      comparisons before it holds in any total order. */
  function RangeSplit1(x: Range, y: Range): (r: seq<Range>)
    ensures 1 <= |r| <= 3
    ensures Chain(r, x.0, x.1)
    ensures forall i :: 0 <= i < |r| ==> AlignedWith(r[i], y)
    ensures Proper(x) && Proper(y) ==> forall i :: 0 <= i < |r| ==> Proper(r[i])
  {
    if (x.1 <= y.0 || y.1 <= x.0) || (y.0 <= x.0 && x.1 <= y.1) then [x]
    else if x.0 < y.0 && y.1 < x.1 then [(x.0, y.0), (y.0, y.1), (y.1, x.1)]
    else if y.0 <= x.0 then [(x.0, y.1), (y.1, x.1)]
    else if x.0 <= y.0 then [(x.0, y.0), (y.0, x.1)]
    else assert false; []
  }

  /** `changed.iter().flat_map(|x| range_split1(x, &y))`. */
  function SplitAll(xs: seq<Range>, y: Range): seq<Range> {
    if |xs| == 0 then [] else RangeSplit1(xs[0], y) + SplitAll(xs[1..], y)
  }

  /** `range_split`: split every x by each y in turn. */
  function RangeSplit(xs: seq<Range>, ys: seq<Range>): seq<Range>
    decreases |ys|
  {
    if |ys| == 0 then xs else RangeSplit(SplitAll(xs, ys[0]), ys[1..])
  }

  predicate Covered(rs: seq<Range>, z: int) {
    exists i :: 0 <= i < |rs| && InRange(rs[i], z)
  }

  function TotalLength(rs: seq<Range>): int {
    if |rs| == 0 then 0 else (rs[0].1 - rs[0].0) + TotalLength(rs[1..])
  }

  predicate AllProper(rs: seq<Range>) {
    forall i :: 0 <= i < |rs| ==> Proper(rs[i])
  }

  lemma {:induction false} TotalLengthAppend(a: seq<Range>, b: seq<Range>)
    ensures TotalLength(a + b) == TotalLength(a) + TotalLength(b)
    decreases |a|
  {
    if |a| > 0 {
      TotalLengthAppend(a[1..], b);
      assert (a + b)[1..] == a[1..] + b;
    } else {
      assert a + b == b;
    }
  }

  /** A chain of proper pieces from a to b covers exactly [a, b), and the
      lengths add up to b - a. */
  lemma {:induction false} ChainTiles(ps: seq<Range>, a: int, b: int, z: int)
    requires Chain(ps, a, b) && AllProper(ps)
    ensures Covered(ps, z) <==> a <= z < b
    ensures TotalLength(ps) == b - a
    ensures forall i :: 0 <= i < |ps| ==> a <= ps[i].0 && ps[i].1 <= b
    decreases |ps|
  {
    if |ps| == 1 {
      if a <= z < b { assert InRange(ps[0], z); }
    } else {
      var rest := ps[1..];
      assert Chain(rest, ps[0].1, b);
      ChainTiles(rest, ps[0].1, b, z);
      if Covered(ps, z) {
        var i :| 0 <= i < |ps| && InRange(ps[i], z);
        if i > 0 { assert InRange(rest[i - 1], z); }
      }
      if a <= z < b {
        if z < ps[0].1 { assert InRange(ps[0], z); }
        else {
          var i :| 0 <= i < |rest| && InRange(rest[i], z);
          assert InRange(ps[i + 1], z);
        }
      }
    }
  }

  /** Splitting a proper range by a proper range tiles it: same points,
      same total length, and every piece inside the original. */
  lemma RangeSplit1Tiles(x: Range, y: Range, z: int)
    requires Proper(x) && Proper(y)
    ensures Covered(RangeSplit1(x, y), z) <==> InRange(x, z)
    ensures TotalLength(RangeSplit1(x, y)) == x.1 - x.0
  {
    ChainTiles(RangeSplit1(x, y), x.0, x.1, z);
  }

  /** Every piece of a split lies inside the range it came from. */
  lemma RangeSplit1Within(x: Range, y: Range)
    requires Proper(x) && Proper(y)
    ensures forall j :: 0 <= j < |RangeSplit1(x, y)| ==> x.0 <= RangeSplit1(x, y)[j].0 && RangeSplit1(x, y)[j].1 <= x.1
  {
    ChainTiles(RangeSplit1(x, y), x.0, x.1, x.0);
  }

  lemma {:induction false} SplitAllShape(xs: seq<Range>, y: Range)
    requires AllProper(xs) && Proper(y)
    ensures AllProper(SplitAll(xs, y))
    ensures forall i :: 0 <= i < |SplitAll(xs, y)| ==> AlignedWith(SplitAll(xs, y)[i], y)
    ensures TotalLength(SplitAll(xs, y)) == TotalLength(xs)
    decreases |xs|
  {
    if |xs| > 0 {
      SplitAllShape(xs[1..], y);
      RangeSplit1Tiles(xs[0], y, 0);
      TotalLengthAppend(RangeSplit1(xs[0], y), SplitAll(xs[1..], y));
    }
  }

  lemma {:induction false} SplitAllCovers(xs: seq<Range>, y: Range, z: int)
    requires AllProper(xs) && Proper(y)
    ensures Covered(SplitAll(xs, y), z) <==> Covered(xs, z)
    decreases |xs|
  {
    if |xs| > 0 {
      var head := RangeSplit1(xs[0], y);
      var tail := SplitAll(xs[1..], y);
      assert SplitAll(xs, y) == head + tail;
      assert Covered(tail, z) <==> Covered(xs[1..], z) by { SplitAllCovers(xs[1..], y, z); }
      assert Covered(head, z) <==> InRange(xs[0], z) by { RangeSplit1Tiles(xs[0], y, z); }
      CoveredConcat(head, tail, z);
      CoveredCons(xs, z);
    }
  }

  /** A concatenation covers what either part covers. */
  lemma CoveredConcat(a: seq<Range>, b: seq<Range>, z: int)
    ensures Covered(a + b, z) <==> Covered(a, z) || Covered(b, z)
  {
    if Covered(a + b, z) {
      var i :| 0 <= i < |a + b| && InRange((a + b)[i], z);
      if i < |a| { assert InRange(a[i], z); } else { assert InRange(b[i - |a|], z); }
    }
    if Covered(a, z) {
      var i :| 0 <= i < |a| && InRange(a[i], z);
      assert InRange((a + b)[i], z);
    }
    if Covered(b, z) {
      var i :| 0 <= i < |b| && InRange(b[i], z);
      assert InRange((a + b)[|a| + i], z);
    }
  }

  /** A non-empty list covers what its head or its tail covers. */
  lemma CoveredCons(xs: seq<Range>, z: int)
    requires |xs| > 0
    ensures Covered(xs, z) <==> InRange(xs[0], z) || Covered(xs[1..], z)
  {
    if Covered(xs, z) {
      var i :| 0 <= i < |xs| && InRange(xs[i], z);
      if i > 0 { assert InRange(xs[1..][i - 1], z); }
    }
    if Covered(xs[1..], z) {
      var i :| 0 <= i < |xs[1..]| && InRange(xs[1..][i], z);
      assert InRange(xs[i + 1], z);
    }
  }

  /** A piece aligned with y' stays aligned when it is cut further. */
  lemma {:induction false} SplitAllKeepsAlignment(xs: seq<Range>, y: Range, y': Range)
    requires AllProper(xs) && Proper(y)
    requires forall i :: 0 <= i < |xs| ==> AlignedWith(xs[i], y')
    ensures forall i :: 0 <= i < |SplitAll(xs, y)| ==> AlignedWith(SplitAll(xs, y)[i], y')
    decreases |xs|
  {
    if |xs| > 0 {
      SplitAllKeepsAlignment(xs[1..], y, y');
      RangeSplit1Within(xs[0], y);
      RangeSplit1Tiles(xs[0], y, 0);
    }
  }

  /** `range_split` keeps the covered points and the total length of the
      input ranges, yields only proper pieces, and leaves every piece either
      inside or disjoint from each y. */
  lemma {:induction false} RangeSplitTiles(xs: seq<Range>, ys: seq<Range>, z: int)
    requires AllProper(xs) && AllProper(ys)
    ensures AllProper(RangeSplit(xs, ys))
    ensures Covered(RangeSplit(xs, ys), z) <==> Covered(xs, z)
    ensures TotalLength(RangeSplit(xs, ys)) == TotalLength(xs)
    ensures forall k, i :: 0 <= k < |ys| && 0 <= i < |RangeSplit(xs, ys)| ==> AlignedWith(RangeSplit(xs, ys)[i], ys[k])
    decreases |ys|
  {
    if |ys| > 0 {
      var next := SplitAll(xs, ys[0]);
      SplitAllShape(xs, ys[0]);
      SplitAllCovers(xs, ys[0], z);
      RangeSplitTiles(next, ys[1..], z);
      var r := RangeSplit(xs, ys);
      forall k, i | 0 <= k < |ys| && 0 <= i < |r| ensures AlignedWith(r[i], ys[k]) {
        if k == 0 {
          KeepsAlignment(next, ys[1..], ys[0]);
        } else {
          assert ys[k] == ys[1..][k - 1];
        }
      }
    }
  }

  /** Further splitting keeps a piece aligned with an earlier y. */
  lemma {:induction false} KeepsAlignment(xs: seq<Range>, ys: seq<Range>, y: Range)
    requires AllProper(xs) && AllProper(ys)
    requires forall i :: 0 <= i < |xs| ==> AlignedWith(xs[i], y)
    ensures forall i :: 0 <= i < |RangeSplit(xs, ys)| ==> AlignedWith(RangeSplit(xs, ys)[i], y)
    decreases |ys|
  {
    if |ys| > 0 {
      SplitAllShape(xs, ys[0]);
      SplitAllKeepsAlignment(xs, ys[0], y);
      KeepsAlignment(SplitAll(xs, ys[0]), ys[1..], y);
    }
  }

  /** `range_overlap1`: whether two half-open ranges share a point. */
  predicate RangeOverlap1(x: Range, y: Range) {
    x.0 < y.1 && y.0 < x.1
  }

  /** The test is symmetric, and for proper ranges it holds exactly when some
      integer lies in both. */
  lemma RangeOverlap1Meaning(x: Range, y: Range)
    ensures RangeOverlap1(x, y) == RangeOverlap1(y, x)
    ensures Proper(x) && Proper(y) ==> (RangeOverlap1(x, y) <==> exists z :: InRange(x, z) && InRange(y, z))
  {
    if Proper(x) && Proper(y) && RangeOverlap1(x, y) {
      var z := if x.0 < y.0 then y.0 else x.0;
      assert InRange(x, z) && InRange(y, z);
    }
  }

  // ---------------------------------------------------------------------
  // Inclusive ranges (s, e) standing for s <= z <= e, as `range_union` and
  // the day-5 merge treat them

  /** `sort_by(|a, b| a.0.cmp(&b.0))`, as a stable insertion sort. */
  function SortByStart(rs: seq<Range>): (r: seq<Range>)
    ensures multiset(r) == multiset(rs)
    ensures SortedByStart(r)
  {
    if |rs| == 0 then []
    else
      assert rs == [rs[0]] + rs[1..];
      var t := SortByStart(rs[1..]);
      InsertByStartSorted(rs[0], t);
      InsertByStart(rs[0], t)
  }

  predicate SortedByStart(rs: seq<Range>) {
    forall i, j :: 0 <= i < j < |rs| ==> rs[i].0 <= rs[j].0
  }

  /** Insert `x` before the first range that does not start earlier. */
  function InsertByStart(x: Range, sorted: seq<Range>): (r: seq<Range>)
    ensures multiset(r) == multiset(sorted) + multiset{x}
    ensures |r| == |sorted| + 1
  {
    if |sorted| == 0 || x.0 <= sorted[0].0 then [x] + sorted
    else
      assert sorted == [sorted[0]] + sorted[1..];
      [sorted[0]] + InsertByStart(x, sorted[1..])
  }

  /** Inserting into a start-sorted list keeps it sorted. */
  lemma {:induction false} InsertByStartSorted(x: Range, sorted: seq<Range>)
    requires SortedByStart(sorted)
    ensures SortedByStart(InsertByStart(x, sorted))
    decreases |sorted|
  {
    if |sorted| > 0 && x.0 > sorted[0].0 {
      var tail := sorted[1..];
      assert SortedByStart(tail);
      InsertByStartSorted(x, tail);
      var rest := InsertByStart(x, tail);
      assert InsertByStart(x, sorted) == [sorted[0]] + rest;
      HeadBelowInsert(x, sorted);
      ConsSortedByStart(sorted[0], rest);
    }
  }

  /** Every range of the insertion into the tail starts no earlier than the
      head of a start-sorted list that `x` does not precede. */
  lemma HeadBelowInsert(x: Range, sorted: seq<Range>)
    requires SortedByStart(sorted) && |sorted| > 0 && x.0 > sorted[0].0
    ensures forall k :: 0 <= k < |InsertByStart(x, sorted[1..])| ==> sorted[0].0 <= InsertByStart(x, sorted[1..])[k].0
  {
    var tail := sorted[1..];
    var rest := InsertByStart(x, tail);
    forall k | 0 <= k < |rest| ensures sorted[0].0 <= rest[k].0 {
      assert rest[k] in multiset(rest);
      if rest[k] != x {
        assert rest[k] in multiset(tail);
        var m :| 0 <= m < |tail| && tail[m] == rest[k];
        assert sorted[m + 1] == rest[k];
      }
    }
  }

  /** A head starting no later than every range of a start-sorted list keeps
      it sorted. */
  lemma ConsSortedByStart(h: Range, rest: seq<Range>)
    requires SortedByStart(rest) && forall k :: 0 <= k < |rest| ==> h.0 <= rest[k].0
    ensures SortedByStart([h] + rest)
  {
    var r := [h] + rest;
    forall i, j | 0 <= i < j < |r| ensures r[i].0 <= r[j].0 {
      if i > 0 {
        assert r[i] == rest[i - 1] && r[j] == rest[j - 1];
      } else {
        assert r[j] == rest[j - 1];
      }
    }
  }

  /** Every range starts at most one past its end: a simple sufficient
      condition for `GroupsAdvance`. */
  predicate Advances(rs: seq<Range>) {
    forall i :: 0 <= i < |rs| ==> rs[i].0 <= rs[i].1 + 1
  }

  function MaxInt(a: int, b: int): int { if a >= b then a else b }

  /** The inner `while` of `range_union`: absorb ranges while they start at
      most one past the running end; returns the end and the next index. */
  function Extend(rs: seq<Range>, i: nat, e: int): (res: (int, nat))
    requires i <= |rs|
    ensures i <= res.1 <= |rs| && res.0 >= e
    ensures res.1 < |rs| ==> rs[res.1].0 > res.0 + 1
    ensures i < |rs| && e + 1 >= rs[i].0 ==> res.1 > i
    decreases |rs| - i
  {
    if i < |rs| && e + 1 >= rs[i].0 then Extend(rs, i + 1, MaxInt(e, rs[i].1)) else (e, i)
  }

  /** Every range that starts a group of the iterator from index `i` starts
      at most one past its own end. This is exactly when the iterator ends:
      a range absorbed into a group may be inverted, but one that starts a
      group stalls it (`InvertedRangeStalls`). */
  predicate GroupsAdvance(rs: seq<Range>, i: nat)
    requires i <= |rs|
    decreases |rs| - i
  {
    i < |rs| ==> rs[i].0 <= rs[i].1 + 1 && GroupsAdvance(rs, Extend(rs, i, rs[i].1).1)
  }

  /** On a group start that begins more than one past its end the inner
      loop absorbs nothing: the iterator yields that range and stays at the
      same index, so it never ends. */
  lemma InvertedRangeStalls(rs: seq<Range>, i: nat)
    requires i < |rs| && rs[i].0 > rs[i].1 + 1
    ensures Extend(rs, i, rs[i].1) == (rs[i].1, i)
    ensures !GroupsAdvance(rs, i)
  {
  }

  /** When no range is inverted, no group start is. */
  lemma {:induction false} AdvancesGroups(rs: seq<Range>, i: nat)
    requires i <= |rs| && Advances(rs)
    ensures GroupsAdvance(rs, i)
    decreases |rs| - i
  {
    if i < |rs| {
      AdvancesGroups(rs, Extend(rs, i, rs[i].1).1);
    }
  }

  /** The iterator of `range_union`, from index i of the sorted ranges. */
  function UnionFrom(rs: seq<Range>, i: nat): seq<Range>
    requires i <= |rs| && GroupsAdvance(rs, i)
    decreases |rs| - i
  {
    if i < |rs| then
      var (e, j) := Extend(rs, i, rs[i].1);
      [(rs[i].0, e)] + UnionFrom(rs, j)
    else []
  }

  /** `range_union`: sort by start, then merge overlapping or adjacent ranges.
      It requires what makes the source's iterator end. */
  function RangeUnion(ranges: seq<Range>): seq<Range>
    requires GroupsAdvance(SortByStart(ranges), 0)
  {
    UnionFrom(SortByStart(ranges), 0)
  }

  /** Input without inverted ranges always meets `RangeUnion`'s requirement. */
  lemma AdvancesRangeUnion(ranges: seq<Range>)
    requires Advances(ranges)
    ensures GroupsAdvance(SortByStart(ranges), 0)
  {
    var sorted := SortByStart(ranges);
    assert Advances(sorted) by {
      forall i | 0 <= i < |sorted| ensures sorted[i].0 <= sorted[i].1 + 1 {
        assert sorted[i] in multiset(ranges);
      }
    }
    AdvancesGroups(sorted, 0);
  }

  /** An inverted range absorbed into a wider one is harmless:
      `[(0, 10), (5, 2)]` merges to `[(0, 10)]` and the iterator ends. */
  lemma AbsorbedInvertedRange()
    ensures !Advances([(0, 10), (5, 2)])
    ensures GroupsAdvance(SortByStart([(0, 10), (5, 2)]), 0)
    ensures RangeUnion([(0, 10), (5, 2)]) == [(0, 10)]
  {
    var rs: seq<Range> := [(0, 10), (5, 2)];
    assert rs[1..] == [(5, 2)];
    assert SortByStart([(5, 2)]) == [(5, 2)];
    assert SortByStart(rs) == InsertByStart((0, 10), [(5, 2)]) == rs;
    assert Extend(rs, 2, 10) == (10, 2);
    assert Extend(rs, 1, 10) == (10, 2);
    assert Extend(rs, 0, 10) == (10, 2);
    assert GroupsAdvance(rs, 2);
    assert GroupsAdvance(rs, 0);
    assert UnionFrom(rs, 2) == [];
  }

  /** Ranges with equal starts keep their input order, as in the stable
      `sort_by`, and that order decides whether the iterator ends:
      `[(5, 10), (5, 2)]` ends ... */
  lemma EqualStartsEnd()
    ensures SortByStart([(5, 10), (5, 2)]) == [(5, 10), (5, 2)]
    ensures GroupsAdvance(SortByStart([(5, 10), (5, 2)]), 0)
  {
    var a: seq<Range> := [(5, 10), (5, 2)];
    assert a[1..] == [(5, 2)];
    assert SortByStart([(5, 2)]) == [(5, 2)];
    assert SortByStart(a) == InsertByStart((5, 10), [(5, 2)]) == a;
    assert Extend(a, 2, 10) == (10, 2);
    assert Extend(a, 1, 10) == (10, 2);
    assert Extend(a, 0, 10) == (10, 2);
    assert GroupsAdvance(a, 2);
  }

  /** ... while `[(5, 2), (5, 10)]` stalls at `(5, 2)`. */
  lemma EqualStartsStall()
    ensures SortByStart([(5, 2), (5, 10)]) == [(5, 2), (5, 10)]
    ensures !GroupsAdvance(SortByStart([(5, 2), (5, 10)]), 0)
  {
    var b: seq<Range> := [(5, 2), (5, 10)];
    assert b[1..] == [(5, 10)];
    assert SortByStart([(5, 10)]) == [(5, 10)];
    assert SortByStart(b) == InsertByStart((5, 2), [(5, 10)]) == b;
    InvertedRangeStalls(b, 0);
  }

  predicate InIncl(x: Range, z: int) {
    x.0 <= z <= x.1
  }

  predicate CoveredIncl(rs: seq<Range>, z: int) {
    exists k :: 0 <= k < |rs| && InIncl(rs[k], z)
  }

  predicate CoveredBetween(rs: seq<Range>, i: int, j: int, z: int)
    requires 0 <= i <= j <= |rs|
  {
    exists k :: i <= k < j && InIncl(rs[k], z)
  }

  /** Consecutive ranges are separated by at least one uncovered integer. */
  predicate Separated(rs: seq<Range>) {
    forall k :: 0 <= k < |rs| - 1 ==> rs[k].1 + 1 < rs[k + 1].0
  }

  /** One merged group covers what its members cover. */
  lemma {:induction false} ExtendCovers(rs: seq<Range>, i: nat, s0: int, e: int, z: int)
    requires i <= |rs| && SortedByStart(rs)
    requires s0 <= e + 1
    requires forall k :: i <= k < |rs| ==> s0 <= rs[k].0
    ensures (s0 <= z <= e || CoveredBetween(rs, i, Extend(rs, i, e).1, z)) <==> s0 <= z <= Extend(rs, i, e).0
    decreases |rs| - i
  {
    if i < |rs| && e + 1 >= rs[i].0 {
      var e' := MaxInt(e, rs[i].1);
      ExtendCovers(rs, i + 1, s0, e', z);
      var j := Extend(rs, i, e).1;
      if CoveredBetween(rs, i, j, z) {
        var k :| i <= k < j && InIncl(rs[k], z);
        if k > i { assert CoveredBetween(rs, i + 1, j, z); }
      }
      if CoveredBetween(rs, i + 1, j, z) {
        var k :| i + 1 <= k < j && InIncl(rs[k], z);
        assert CoveredBetween(rs, i, j, z);
      }
      if InIncl(rs[i], z) { assert CoveredBetween(rs, i, j, z); }
    }
  }

  /** The union from index i covers what rs[i..] covers, and its ranges are
      sorted, separated and start no earlier than rs[i]. */
  lemma {:induction false} UnionFromCorrect(rs: seq<Range>, i: nat, z: int)
    requires i <= |rs| && SortedByStart(rs) && GroupsAdvance(rs, i)
    ensures CoveredIncl(UnionFrom(rs, i), z) <==> CoveredBetween(rs, i, |rs|, z)
    ensures Separated(UnionFrom(rs, i))
    ensures forall k :: 0 <= k < |UnionFrom(rs, i)| ==> UnionFrom(rs, i)[k].0 <= UnionFrom(rs, i)[k].1 + 1
    ensures i < |rs| ==> |UnionFrom(rs, i)| > 0 && UnionFrom(rs, i)[0].0 == rs[i].0
    ensures |UnionFrom(rs, i)| <= |rs| - i
    decreases |rs| - i
  {
    if i < |rs| {
      var ej := Extend(rs, i, rs[i].1);
      var rest := UnionFrom(rs, ej.1);
      assert UnionFrom(rs, i) == [(rs[i].0, ej.0)] + rest;
      UnionFromCorrect(rs, ej.1, z);
      UnionStepCovers(rs, i, z);
    }
  }

  /** One merged group in front of the union of the rest covers what the
      ranges from i on cover. */
  lemma UnionStepCovers(rs: seq<Range>, i: nat, z: int)
    requires i < |rs| && SortedByStart(rs) && GroupsAdvance(rs, i)
    requires var j := Extend(rs, i, rs[i].1).1;
      CoveredIncl(UnionFrom(rs, j), z) <==> CoveredBetween(rs, j, |rs|, z)
    ensures CoveredIncl(UnionFrom(rs, i), z) <==> CoveredBetween(rs, i, |rs|, z)
  {
    var ej := Extend(rs, i, rs[i].1);
    var e, j := ej.0, ej.1;
    assert UnionFrom(rs, i) == [(rs[i].0, e)] + UnionFrom(rs, j);
    assert InIncl((rs[i].0, e), z) <==> CoveredBetween(rs, i, j, z) by {
      ExtendCovers(rs, i, rs[i].0, rs[i].1, z);
      if InIncl(rs[i], z) {
        assert CoveredBetween(rs, i, j, z);
      }
    }
    CoverConcat(rs, i, j, (rs[i].0, e), UnionFrom(rs, j), z);
  }

  /** A range covering what ranges i..j cover, followed by ranges covering
      what ranges j.. cover, together cover what ranges i.. cover. */
  lemma CoverConcat(rs: seq<Range>, i: nat, j: nat, head: Range, rest: seq<Range>, z: int)
    requires i <= j <= |rs|
    requires InIncl(head, z) <==> CoveredBetween(rs, i, j, z)
    requires CoveredIncl(rest, z) <==> CoveredBetween(rs, j, |rs|, z)
    ensures CoveredIncl([head] + rest, z) <==> CoveredBetween(rs, i, |rs|, z)
  {
    var out := [head] + rest;
    if CoveredIncl(out, z) {
      var k :| 0 <= k < |out| && InIncl(out[k], z);
      if k == 0 {
        var k' :| i <= k' < j && InIncl(rs[k'], z);
      } else {
        assert out[k] == rest[k - 1];
        var k' :| j <= k' < |rs| && InIncl(rs[k'], z);
      }
    }
    if CoveredBetween(rs, i, |rs|, z) {
      var k' :| i <= k' < |rs| && InIncl(rs[k'], z);
      if k' < j {
        assert CoveredBetween(rs, i, j, z);
        assert out[0] == head;
      } else {
        assert CoveredBetween(rs, j, |rs|, z);
        var k :| 0 <= k < |rest| && InIncl(rest[k], z);
        assert out[k + 1] == rest[k];
      }
    }
  }

  /** `range_union` yields sorted, separated ranges (each next start exceeds
      the previous end + 1), no more of them than it was given, covering
      exactly the integers the input covers. */
  lemma RangeUnionCorrect(ranges: seq<Range>, z: int)
    requires GroupsAdvance(SortByStart(ranges), 0)
    ensures Separated(RangeUnion(ranges))
    ensures |RangeUnion(ranges)| <= |ranges|
    ensures CoveredIncl(RangeUnion(ranges), z) <==> CoveredIncl(ranges, z)
  {
    var sorted := SortByStart(ranges);
    UnionFromCorrect(sorted, 0, z);
    assert |sorted| == |multiset(sorted)| == |multiset(ranges)| == |ranges|;
    if CoveredIncl(ranges, z) {
      var k :| 0 <= k < |ranges| && InIncl(ranges[k], z);
      assert ranges[k] in multiset(sorted);
      var k' :| 0 <= k' < |sorted| && sorted[k'] == ranges[k];
      assert CoveredBetween(sorted, 0, |sorted|, z);
    }
    if CoveredBetween(sorted, 0, |sorted|, z) {
      var k :| 0 <= k < |sorted| && InIncl(sorted[k], z);
      assert sorted[k] in multiset(ranges);
      var k' :| 0 <= k' < |ranges| && ranges[k'] == sorted[k];
    }
  }

  // ---------------------------------------------------------------------
  // Matrices as sequences of rows

  /** What `transpose` indexes without panicking: a first row exists, and no
      row is shorter than it (longer rows are cut to its length). */
  predicate Transposable<T>(data: seq<seq<T>>) {
    |data| > 0 && forall r :: 0 <= r < |data| ==> |data[r]| >= |data[0]|
  }

  predicate Rectangular<T>(data: seq<seq<T>>) {
    forall r :: 0 <= r < |data| ==> |data[r]| == |data[0]|
  }

  /** `transpose`: column c of the input becomes row c of the output. */
  function Transpose<T>(data: seq<seq<T>>): (r: seq<seq<T>>)
    requires Transposable(data)
  {
    var rows := |data|;
    var cols := |data[0]|;
    seq(cols, c requires 0 <= c < cols => seq(rows, row requires 0 <= row < rows => data[row][c]))
  }

  /** Dimensions swap and every entry moves from (row, col) to (col, row). */
  lemma TransposeShape<T>(data: seq<seq<T>>)
    requires Transposable(data)
    ensures |Transpose(data)| == |data[0]|
    ensures forall c :: 0 <= c < |data[0]| ==> |Transpose(data)[c]| == |data|
    ensures forall c, row :: 0 <= c < |data[0]| && 0 <= row < |data| ==> Transpose(data)[c][row] == data[row][c]
  {
  }

  /** Transposing a rectangular matrix with at least one column twice gives it back. */
  lemma TransposeInvolution<T>(data: seq<seq<T>>)
    requires Transposable(data) && Rectangular(data) && |data[0]| > 0
    ensures Transposable(Transpose(data))
    ensures Transpose(Transpose(data)) == data
  {
    var t := Transpose(data);
    var tt := Transpose(t);
    assert |tt| == |data|;
    forall row | 0 <= row < |data| ensures tt[row] == data[row] {
      assert |tt[row]| == |data[row]|;
    }
  }

  /** `str::lines` on '\n' separators: a final newline does not start an
      extra line, and the empty string has no lines. */
  function Lines(s: string): (r: seq<string>)
    ensures forall i :: 0 <= i < |r| ==> '\n' !in r[i]
    decreases |s|
  {
    if |s| == 0 then []
    else
      var i := FirstNewline(s, 0);
      if i == |s| then [s]
      else if i + 1 == |s| then [s[..i]]
      else [s[..i]] + Lines(s[i + 1..])
  }

  /** Index of the first '\n' at or after `from`, or |s| when there is none. */
  function FirstNewline(s: string, from: nat): (i: nat)
    requires from <= |s|
    ensures from <= i <= |s|
    ensures forall k :: from <= k < i ==> s[k] != '\n'
    ensures i < |s| ==> s[i] == '\n'
    decreases |s| - from
  {
    if from == |s| || s[from] == '\n' then from else FirstNewline(s, from + 1)
  }

  /** `.join("\n")`. */
  function JoinLines(ls: seq<string>): string {
    if |ls| == 0 then "" else if |ls| == 1 then ls[0] else ls[0] + "\n" + JoinLines(ls[1..])
  }

  /** Splitting joined lines gives them back, provided no line holds a
      newline and the last one is not empty. */
  lemma {:induction false} LinesOfJoin(ls: seq<string>)
    requires forall i :: 0 <= i < |ls| ==> '\n' !in ls[i]
    requires |ls| > 0 ==> |ls[|ls| - 1]| > 0
    ensures Lines(JoinLines(ls)) == ls
    decreases |ls|
  {
    if |ls| == 1 {
      var i := FirstNewline(ls[0], 0);
      assert forall k :: 0 <= k < |ls[0]| ==> ls[0][k] != '\n';
    } else if |ls| > 1 {
      var s := JoinLines(ls);
      var tail := JoinLines(ls[1..]);
      assert s == ls[0] + "\n" + tail;
      var i := FirstNewline(s, 0);
      assert s[|ls[0]|] == '\n';
      assert forall k :: 0 <= k < |ls[0]| ==> s[k] == ls[0][k] != '\n';
      assert i == |ls[0]|;
      LinesOfJoin(ls[1..]);
      assert s[..i] == ls[0];
      assert s[i + 1..] == tail;
      JoinNonEmpty(ls[1..]);
    }
  }

  lemma JoinNonEmpty(ls: seq<string>)
    requires |ls| > 0 && |ls[|ls| - 1]| > 0
    ensures |JoinLines(ls)| > 0
  {
  }

  /** `transpose_text`: transpose the character grid of a text. */
  function TransposeText(s: string): (r: string)
    requires Transposable(Lines(s))
    ensures Lines(r) == Transpose(Lines(s))
  {
    var t := Transpose(Lines(s));
    LinesOfJoin(t);
    JoinLines(t)
  }

  predicate Square<T>(data: seq<seq<T>>) {
    forall r :: 0 <= r < |data| ==> |data[r]| == |data|
  }

  /** The clockwise quarter turn of a square matrix: the entry at (row, col)
      comes from (n-1-col, row). */
  function Rotated<T>(data: seq<seq<T>>): (r: seq<seq<T>>)
    requires Square(data)
    ensures Square(r) && |r| == |data|
  {
    var n := |data|;
    seq(n, a requires 0 <= a < n => seq(n, b requires 0 <= b < n => data[n - 1 - b][a]))
  }

  /** A quarter turn is the transpose with each row read backwards. */
  lemma RotatedIsReversedTranspose<T>(data: seq<seq<T>>)
    requires Square(data) && |data| > 0
    ensures Transposable(data)
    ensures forall a, b :: 0 <= a < |data| && 0 <= b < |data| ==>
      Rotated(data)[a][b] == Transpose(data)[a][|data| - 1 - b]
  {
  }

  /** Four quarter turns are the identity. */
  lemma RotatedFourTimes<T>(data: seq<seq<T>>)
    requires Square(data)
    ensures Rotated(Rotated(Rotated(Rotated(data)))) == data
  {
    var r4 := Rotated(Rotated(Rotated(Rotated(data))));
    forall a | 0 <= a < |data| ensures r4[a] == data[a] {
      assert |r4[a]| == |data[a]|;
    }
  }

  /** `rotate`: writes row i of the input into column n-1-i of an n-by-n
      matrix filled with data[0][0]; columns past the end of a short row keep
      that filler, and entries past column n are dropped. */
  method Rotate<T>(data: seq<seq<T>>) returns (r: seq<seq<T>>)
    requires |data| > 0 && |data[0]| > 0
    ensures Square(r) && |r| == |data|
    ensures forall a, b :: 0 <= a < |data| && 0 <= b < |data| ==>
      r[a][b] == (if a < |data[|data| - 1 - b]| then data[|data| - 1 - b][a] else data[0][0])
  {
    var n := |data|;
    var fill := data[0][0];
    r := seq(n, _ => seq(n, _ => fill));
    var i := 0;
    while i < n
      invariant 0 <= i <= n
      invariant Square(r) && |r| == n
      invariant forall a, b :: 0 <= a < n && 0 <= b < n ==>
        r[a][b] == (if n - 1 - b < i && a < |data[n - 1 - b]| then data[n - 1 - b][a] else fill)
    {
      var row := data[i];
      var m := if |row| < n then |row| else n;
      var j := 0;
      while j < m
        invariant 0 <= j <= m
        invariant Square(r) && |r| == n
        invariant forall a, b :: 0 <= a < n && 0 <= b < n ==>
          r[a][b] == (if (n - 1 - b < i || (n - 1 - b == i && a < j)) && a < |data[n - 1 - b]|
                      then data[n - 1 - b][a] else fill)
      {
        r := r[j := r[j][n - i - 1 := row[j]]];
        j := j + 1;
      }
      i := i + 1;
    }
  }

  /** On a square matrix `rotate` is the quarter turn. */
  lemma RotateOfSquare<T>(data: seq<seq<T>>, r: seq<seq<T>>)
    requires |data| > 0 && |data[0]| > 0 && Square(data)
    requires Square(r) && |r| == |data|
    requires forall a, b :: 0 <= a < |data| && 0 <= b < |data| ==>
      r[a][b] == (if a < |data[|data| - 1 - b]| then data[|data| - 1 - b][a] else data[0][0])
    ensures r == Rotated(data)
  {
    forall a | 0 <= a < |r| ensures r[a] == Rotated(data)[a] {
    }
  }

  // The in-place rotation works ring by ring. Ring L is the set of cells at
  // distance L from the border; each step (i, j) cycles the four cells
  // (i, j), (n-1-j, i), (n-1-i, n-1-j), (j, n-1-i).

  function Ring(n: int, r: int, c: int): int {
    Min4(r, c, n - 1 - r, n - 1 - c)
  }

  function Min4(a: int, b: int, c: int, d: int): int {
    var ab := if a <= b then a else b;
    var cd := if c <= d then c else d;
    if ab <= cd then ab else cd
  }

  /** The index j of the step (Ring, j) that moves cell (r, c). */
  function Slot(n: int, r: int, c: int): int {
    var l := Ring(n, r, c);
    if r == l && c <= n - 2 - l then c
    else if c == n - 1 - l && r <= n - 2 - l then r
    else if r == n - 1 - l && c >= l + 1 then n - 1 - c
    else n - 1 - r
  }

  /** The four cells one step (i, j) of `rotate_mut` moves. */
  predicate StepCell(n: int, i: int, j: int, r: int, c: int) {
    (r, c) == (i, j) || (r, c) == (n - 1 - j, i) || (r, c) == (n - 1 - i, n - 1 - j) || (r, c) == (j, n - 1 - i)
  }

  /** Exactly the four cells of step (i, j) belong to it. */
  lemma StepCells(n: int, i: int, j: int, r: int, c: int)
    requires 0 <= i < n / 2 && i <= j < n - i - 1
    requires 0 <= r < n && 0 <= c < n
    ensures (Ring(n, r, c) == i && Slot(n, r, c) == j) <==> StepCell(n, i, j, r, c)
  {
  }

  /** A cell of ring l moves in a step whose index stays below n-1-l. */
  lemma SlotBound(n: int, r: int, c: int)
    requires 0 <= r < n && 0 <= c < n && Ring(n, r, c) < n / 2
    ensures Ring(n, r, c) <= Slot(n, r, c) < n - Ring(n, r, c) - 1
  {
  }

  /** Only the centre of an odd-sized matrix lies in no ring that is turned,
      and the quarter turn leaves it in place. */
  lemma CentreFixed(n: int, r: int, c: int)
    requires 0 <= r < n && 0 <= c < n && Ring(n, r, c) >= n / 2
    ensures r == c == n - 1 - c
  {
  }

  predicate Turned(n: int, i: int, j: int, r: int, c: int) {
    Ring(n, r, c) < i || (Ring(n, r, c) == i && Slot(n, r, c) < j)
  }

  /** The rings below i are turned and every other cell is as in `data`. */
  ghost predicate RingsTurned<T>(data: seq<seq<T>>, res: seq<seq<T>>, i: int)
    requires Square(data)
  {
    && Square(res) && |res| == |data|
    && forall r, c :: 0 <= r < |data| && 0 <= c < |data| ==>
      res[r][c] == (if Ring(|data|, r, c) < i then data[|data| - 1 - c][r] else data[r][c])
  }

  /** The cells turned by the steps before (i, j) are turned and every other
      cell is as in `data`. */
  ghost predicate TurnedSoFar<T>(data: seq<seq<T>>, res: seq<seq<T>>, i: int, j: int)
    requires Square(data)
  {
    && Square(res) && |res| == |data|
    && forall r, c :: 0 <= r < |data| && 0 <= c < |data| ==>
      res[r][c] == (if Turned(|data|, i, j, r, c) then data[|data| - 1 - c][r] else data[r][c])
  }

  /** Ring i starts untouched: no step of it has run yet. */
  lemma RingsTurnedSoFar<T>(data: seq<seq<T>>, res: seq<seq<T>>, i: int)
    requires Square(data) && 0 <= i < |data| / 2 && RingsTurned(data, res, i)
    ensures TurnedSoFar(data, res, i, i)
  {
    var n := |data|;
    forall r, c | 0 <= r < n && 0 <= c < n ensures Turned(n, i, i, r, c) <==> Ring(n, r, c) < i {
      if Ring(n, r, c) == i { SlotBound(n, r, c); }
    }
  }

  /** Once its last step has run, ring i is turned. */
  lemma RingDone<T>(data: seq<seq<T>>, res: seq<seq<T>>, i: int)
    requires Square(data) && 0 <= i < |data| / 2 && TurnedSoFar(data, res, i, |data| - i - 1)
    ensures RingsTurned(data, res, i + 1)
  {
    var n := |data|;
    forall r, c | 0 <= r < n && 0 <= c < n ensures Turned(n, i, n - i - 1, r, c) <==> Ring(n, r, c) < i + 1 {
      if Ring(n, r, c) == i { SlotBound(n, r, c); }
    }
  }

  /** With every ring turned the matrix is the quarter turn of `data`. */
  lemma AllRingsTurned<T>(data: seq<seq<T>>, res: seq<seq<T>>)
    requires Square(data) && RingsTurned(data, res, |data| / 2)
    ensures res == Rotated(data)
  {
    var n := |data|;
    forall r | 0 <= r < n ensures res[r] == Rotated(data)[r] {
      forall c | 0 <= c < n ensures res[r][c] == data[n - 1 - c][r] {
        if Ring(n, r, c) >= n / 2 { CentreFixed(n, r, c); }
      }
    }
  }

  /** `m[r][c] = v` on a square matrix. */
  function SetCell<T>(m: seq<seq<T>>, r: int, c: int, v: T): (res: seq<seq<T>>)
    requires Square(m) && 0 <= r < |m| && 0 <= c < |m|
    ensures Square(res) && |res| == |m|
    ensures forall r', c' :: 0 <= r' < |m| && 0 <= c' < |m| ==>
      res[r'][c'] == if r' == r && c' == c then v else m[r'][c']
  {
    m[r := m[r][c := v]]
  }

  /** One step of `rotate_mut`: the four cells of step (i, j) each take the
      value of the cell a quarter turn brings there; the rest stay. */
  method RotateStep<T>(m: seq<seq<T>>, i: int, j: int) returns (res: seq<seq<T>>)
    requires Square(m) && 0 <= i < |m| / 2 && i <= j < |m| - i - 1
    ensures Square(res) && |res| == |m|
    ensures forall r, c :: 0 <= r < |m| && 0 <= c < |m| ==>
      res[r][c] == (if StepCell(|m|, i, j, r, c) then m[|m| - 1 - c][r] else m[r][c])
  {
    var n := |m|;
    var temp := m[i][j];
    var m1 := SetCell(m, i, j, m[n - j - 1][i]);
    var m2 := SetCell(m1, n - j - 1, i, m1[n - i - 1][n - j - 1]);
    var m3 := SetCell(m2, n - i - 1, n - j - 1, m2[j][n - i - 1]);
    res := SetCell(m3, j, n - i - 1, temp);
    assert m1[n - i - 1][n - j - 1] == m[n - i - 1][n - j - 1];
    assert m2[j][n - i - 1] == m[j][n - i - 1];

  }

  /** After a step, the cells turned so far include step (i, j). */
  lemma StepAdvances<T>(data: seq<seq<T>>, m: seq<seq<T>>, res: seq<seq<T>>, i: int, j: int)
    requires Square(data) && Square(m) && Square(res) && |m| == |data| == |res|
    requires 0 <= i < |m| / 2 && i <= j < |m| - i - 1
    requires forall r, c :: 0 <= r < |m| && 0 <= c < |m| ==>
      m[r][c] == (if Turned(|m|, i, j, r, c) then data[|m| - 1 - c][r] else data[r][c])
    requires forall r, c :: 0 <= r < |m| && 0 <= c < |m| ==>
      res[r][c] == (if StepCell(|m|, i, j, r, c) then m[|m| - 1 - c][r] else m[r][c])
    ensures forall r, c :: 0 <= r < |m| && 0 <= c < |m| ==>
      res[r][c] == (if Turned(|m|, i, j + 1, r, c) then data[|m| - 1 - c][r] else data[r][c])
  {
    var n := |m|;
    forall r, c | 0 <= r < n && 0 <= c < n
      ensures res[r][c] == (if Turned(n, i, j + 1, r, c) then data[n - 1 - c][r] else data[r][c])
    {
      StepCells(n, i, j, r, c);
      StepCells(n, i, j, n - 1 - c, r);
    }
  }

  /** `rotate_mut`: the in-place quarter turn of a square matrix. The model
      threads the matrix through as a value. */
  method RotateMut<T>(data: seq<seq<T>>) returns (res: seq<seq<T>>)
    requires Square(data)
    ensures res == Rotated(data)
  {
    var n := |data|;
    res := data;
    var i := 0;
    while i < n / 2
      invariant 0 <= i <= n / 2
      invariant RingsTurned(data, res, i)
    {
      RingsTurnedSoFar(data, res, i);
      var j := i;
      while j < n - i - 1
        invariant i <= j <= n - i - 1
        invariant TurnedSoFar(data, res, i, j)
      {
        var next := RotateStep(res, i, j);
        assert TurnedSoFar(data, next, i, j + 1) by { StepAdvances(data, res, next, i, j); }
        res := next;
        j := j + 1;
      }
      RingDone(data, res, i);
      i := i + 1;
    }
    AllRingsTurned(data, res);
  }
}
