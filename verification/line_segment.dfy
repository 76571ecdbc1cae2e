/** Model of src/line_segment.rs: integer line segments and the lattice
    points two of them share. */
module LineSegment {
  import opened Wrappers
  import Lib

  type Pos = (int, int)

  datatype LineSegment = LineSegment(p1: Pos, p2: Pos)

  /** Equal x and different y. A single point counts as horizontal. */
  predicate Vertical(s: LineSegment) {
    s.p1.0 == s.p2.0 && s.p1.1 != s.p2.1
  }

  predicate Horizontal(s: LineSegment) {
    !Vertical(s)
  }

  /** The segments the puzzles use: vertical, horizontal or a single point. */
  predicate AxisAligned(s: LineSegment) {
    s.p1.0 == s.p2.0 || s.p1.1 == s.p2.1
  }

  function Min(a: int, b: int): int { if a <= b then a else b }
  function Max(a: int, b: int): int { if a >= b then a else b }

  /** The lattice points of an axis-aligned segment are its bounding box. */
  predicate OnSegment(s: LineSegment, p: Pos) {
    && Min(s.p1.0, s.p2.0) <= p.0 <= Max(s.p1.0, s.p2.0)
    && Min(s.p1.1, s.p2.1) <= p.1 <= Max(s.p1.1, s.p2.1)
  }

  function Len(s: LineSegment): int {
    Lib.ManhattanDistance(s.p1, s.p2)
  }

  /** `in_line(x1, x2, x)`: x lies between x1 and x2, in either order. */
  predicate InLine(x1: int, x2: int, x: int) {
    (x1 <= x && x <= x2) || (x2 <= x && x <= x1)
  }

  /** The inclusive range `lo..=hi`, empty when lo > hi. */
  function RangeInclusive(lo: int, hi: int): (r: seq<int>)
    ensures |r| == if lo <= hi then hi - lo + 1 else 0
    ensures forall i :: 0 <= i < |r| ==> r[i] == lo + i
  {
    if lo <= hi then seq(hi - lo + 1, i => lo + i) else []
  }

  /** `overlap`: from the larger of the two minima to the smaller of the two maxima. */
  function Overlap(i1: int, i2: int, j1: int, j2: int): (r: seq<int>)
    ensures forall k :: k in r <==> InLine(i1, i2, k) && InLine(j1, j2, k)
  {
    var k1 := Max(Min(i1, i2), Min(j1, j2));
    var k2 := Min(Max(i1, i2), Max(j1, j2));
    var r := RangeInclusive(k1, k2);
    assert forall k :: k in r <==> k1 <= k <= k2 by {
      forall k | k1 <= k <= k2 ensures k in r {
        assert r[k - k1] == k;
      }
    }
    r
  }

  function IntersectionsOrthogonal(s: LineSegment, other: LineSegment): seq<Pos> {
    var (h, v) := if Vertical(s) then (other, s) else (s, other);
    if InLine(h.p1.0, h.p2.0, v.p1.0) && InLine(v.p1.1, v.p2.1, h.p1.1) then [(v.p1.0, h.p1.1)]
    else []
  }

  function IntersectionsParallel(s: LineSegment, other: LineSegment): seq<Pos> {
    if Vertical(s) && s.p1.0 == other.p1.0 then
      var ys := Overlap(s.p1.1, s.p2.1, other.p1.1, other.p2.1);
      seq(|ys|, i requires 0 <= i < |ys| => (s.p1.0, ys[i]))
    else if Horizontal(s) && s.p1.1 == other.p1.1 then
      var xs := Overlap(s.p1.0, s.p2.0, other.p1.0, other.p2.0);
      seq(|xs|, i requires 0 <= i < |xs| => (xs[i], s.p1.1))
    else []
  }

  /** `intersections`: orthogonal pairs meet in at most one point, parallel
      pairs in the overlap of their spans. */
  function Intersections(s: LineSegment, other: LineSegment): seq<Pos> {
    if Vertical(s) != Vertical(other) then IntersectionsOrthogonal(s, other)
    else IntersectionsParallel(s, other)
  }

  /** `intersect`: the source asserts there is at most one intersection. */
  function Intersect(s: LineSegment, other: LineSegment): (r: Option<Pos>)
    requires |Intersections(s, other)| <= 1
    ensures r == None <==> |Intersections(s, other)| == 0
    ensures r.Some? ==> Intersections(s, other) == [r.value]
  {
    var i := Intersections(s, other);
    if |i| == 0 then None else Some(i[0])
  }

  /** For axis-aligned segments the points reported are exactly the lattice
      points lying on both segments. */
  lemma IntersectionsAreCommonPoints(a: LineSegment, b: LineSegment, p: Pos)
    requires AxisAligned(a) && AxisAligned(b)
    ensures p in Intersections(a, b) <==> OnSegment(a, p) && OnSegment(b, p)
  {
    if Vertical(a) == Vertical(b) && !(Vertical(a) && a.p1.0 == b.p1.0) && !(Horizontal(a) && a.p1.1 == b.p1.1) {
      CommonPointsApart(a, b, p);
    } else if Vertical(a) == Vertical(b) && Vertical(a) {
      CommonPointsVertical(a, b, p);
    } else if Vertical(a) == Vertical(b) {
      CommonPointsHorizontal(a, b, p);
    } else {
      CommonPointsOrthogonal(a, b, p);
    }
  }

  /** Parallel segments on different lines share nothing. */
  lemma CommonPointsApart(a: LineSegment, b: LineSegment, p: Pos)
    requires AxisAligned(a) && AxisAligned(b) && Vertical(a) == Vertical(b)
    requires !(Vertical(a) && a.p1.0 == b.p1.0) && !(Horizontal(a) && a.p1.1 == b.p1.1)
    ensures p in Intersections(a, b) <==> OnSegment(a, p) && OnSegment(b, p)
  {
    assert Intersections(a, b) == [];
    if Vertical(a) {
      assert OnSegment(a, p) ==> p.0 == a.p1.0;
      assert OnSegment(b, p) ==> p.0 == b.p1.0;
    } else {
      assert a.p1.1 == a.p2.1 && b.p1.1 == b.p2.1;
      assert OnSegment(a, p) ==> p.1 == a.p1.1;
      assert OnSegment(b, p) ==> p.1 == b.p1.1;
    }
  }

  /** Two vertical segments on one column share the overlap of their rows. */
  lemma CommonPointsVertical(a: LineSegment, b: LineSegment, p: Pos)
    requires AxisAligned(a) && AxisAligned(b) && Vertical(a) && Vertical(b) && a.p1.0 == b.p1.0
    ensures p in Intersections(a, b) <==> OnSegment(a, p) && OnSegment(b, p)
  {
    var ys := Overlap(a.p1.1, a.p2.1, b.p1.1, b.p2.1);
    if p in Intersections(a, b) {
      var i :| 0 <= i < |ys| && Intersections(a, b)[i] == p;
      assert ys[i] in ys;
    }
    if OnSegment(a, p) && OnSegment(b, p) {
      assert InLine(a.p1.1, a.p2.1, p.1) && InLine(b.p1.1, b.p2.1, p.1);
      assert p.1 in ys;
      var i :| 0 <= i < |ys| && ys[i] == p.1;
      assert Intersections(a, b)[i] == (a.p1.0, p.1) == p;
    }
  }

  /** Two horizontal segments on one row share the overlap of their columns. */
  lemma CommonPointsHorizontal(a: LineSegment, b: LineSegment, p: Pos)
    requires AxisAligned(a) && AxisAligned(b) && !Vertical(a) && !Vertical(b) && Horizontal(a) && a.p1.1 == b.p1.1
    ensures p in Intersections(a, b) <==> OnSegment(a, p) && OnSegment(b, p)
  {
    var xs := Overlap(a.p1.0, a.p2.0, b.p1.0, b.p2.0);
    if p in Intersections(a, b) {
      var i :| 0 <= i < |xs| && Intersections(a, b)[i] == p;
      assert xs[i] in xs;
    }
    if OnSegment(a, p) && OnSegment(b, p) {
      assert InLine(a.p1.0, a.p2.0, p.0) && InLine(b.p1.0, b.p2.0, p.0);
      assert p.0 in xs;
      var i :| 0 <= i < |xs| && xs[i] == p.0;
      assert Intersections(a, b)[i] == (p.0, a.p1.1) == p;
    }
  }

  /** A horizontal and a vertical segment share at most their crossing. */
  lemma CommonPointsOrthogonal(a: LineSegment, b: LineSegment, p: Pos)
    requires AxisAligned(a) && AxisAligned(b) && Vertical(a) != Vertical(b)
    ensures p in Intersections(a, b) <==> OnSegment(a, p) && OnSegment(b, p)
  {
    var (h, v) := if Vertical(a) then (b, a) else (a, b);
    assert h.p1.1 == h.p2.1 && v.p1.0 == v.p2.0;
    assert Intersections(a, b) == IntersectionsOrthogonal(a, b);
    if OnSegment(a, p) && OnSegment(b, p) {
      assert p == (v.p1.0, h.p1.1);
    }
  }

  /** Points come out strictly increasing (so without repetition), and an
      orthogonal pair yields at most one. */
  lemma IntersectionsOrdered(a: LineSegment, b: LineSegment)
    ensures forall i, j :: 0 <= i < j < |Intersections(a, b)| ==> Intersections(a, b)[i] != Intersections(a, b)[j]
    ensures forall i :: 0 <= i < |Intersections(a, b)| - 1 ==>
      var (p, q) := (Intersections(a, b)[i], Intersections(a, b)[i + 1]);
      (p.0 == q.0 && p.1 + 1 == q.1) || (p.1 == q.1 && p.0 + 1 == q.0)
    ensures Vertical(a) != Vertical(b) ==> |Intersections(a, b)| <= 1
  {
  }

  /** The answer does not depend on which segment is the receiver. */
  lemma IntersectionsSymmetric(a: LineSegment, b: LineSegment)
    ensures Intersections(a, b) == Intersections(b, a)
  {
    if Vertical(a) == Vertical(b) {
      if Vertical(a) && a.p1.0 == b.p1.0 {
        assert Overlap(a.p1.1, a.p2.1, b.p1.1, b.p2.1) == Overlap(b.p1.1, b.p2.1, a.p1.1, a.p2.1);
      } else if Horizontal(a) && a.p1.1 == b.p1.1 {
        assert Overlap(a.p1.0, a.p2.0, b.p1.0, b.p2.0) == Overlap(b.p1.0, b.p2.0, a.p1.0, a.p2.0);
      }
    }
  }

  function Reverse(s: LineSegment): LineSegment {
    LineSegment(s.p2, s.p1)
  }

  /** For axis-aligned segments the endpoint order does not matter either. */
  lemma IntersectionsIgnoreEndpointOrder(a: LineSegment, b: LineSegment)
    requires AxisAligned(a) && AxisAligned(b)
    ensures Intersections(Reverse(a), b) == Intersections(a, b)
    ensures Intersections(a, Reverse(b)) == Intersections(a, b)
  {
    var ra, rb := Reverse(a), Reverse(b);
    assert Overlap(a.p1.1, a.p2.1, b.p1.1, b.p2.1) == Overlap(ra.p1.1, ra.p2.1, b.p1.1, b.p2.1)
      == Overlap(a.p1.1, a.p2.1, rb.p1.1, rb.p2.1);
    assert Overlap(a.p1.0, a.p2.0, b.p1.0, b.p2.0) == Overlap(ra.p1.0, ra.p2.0, b.p1.0, b.p2.0)
      == Overlap(a.p1.0, a.p2.0, rb.p1.0, rb.p2.0);
  }

  /** `len` counts the steps along an axis-aligned segment: it has exactly
      `len + 1` lattice points, which is what it shares with itself. */
  lemma LenCountsPoints(s: LineSegment)
    requires AxisAligned(s)
    ensures |Intersections(s, s)| == Len(s) + 1
  {
  }

  /** The orthogonal case: exactly `(v.x, h.y)` when both in-line checks hold. */
  lemma OrthogonalPoint(v: LineSegment, h: LineSegment)
    requires Vertical(v) && Horizontal(h)
    ensures Intersections(v, h) == Intersections(h, v)
    ensures Intersections(v, h) ==
      if InLine(h.p1.0, h.p2.0, v.p1.0) && InLine(v.p1.1, v.p2.1, h.p1.1) then [(v.p1.0, h.p1.1)] else []
  {
  }
}
