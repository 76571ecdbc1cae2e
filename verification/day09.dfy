/** Model of the kernel of src/bin/09.rs: a rectilinear polygon given by its
    red tiles, point-in-polygon by ray casting, and the largest rectangle
    spanned by two red tiles. */
module Day09 {
  import opened Wrappers
  import LineSegment

  type Pos = (int, int)

  function Min(a: int, b: int): int { if a <= b then a else b }
  function Max(a: int, b: int): int { if a >= b then a else b }

  // ---------------------------------------------------------------------
  // Edges

  /** A horizontal edge at height `y` from `x1` to `x2`, or a vertical one
      at column `x` from `y1` to `y2`; the ends are ordered. */
  datatype Edge = H(y: int, x1: int, x2: int) | V(x: int, y1: int, y2: int)

  predicate Aligned(a: Pos, b: Pos) {
    a.0 == b.0 || a.1 == b.1
  }

  /** `Edge::new`: two tiles in the same column give a vertical edge, two in
      the same row a horizontal one; a diagonal pair is refused. */
  function NewEdge(a: Pos, b: Pos): (e: Edge)
    requires Aligned(a, b)
    ensures e.V? <==> a.0 == b.0
    ensures e.V? ==> e.x == a.0 && e.y1 <= e.y2 && {e.y1, e.y2} == {a.1, b.1}
    ensures e.H? ==> e.y == a.1 == b.1 && e.x1 <= e.x2 && {e.x1, e.x2} == {a.0, b.0}
  {
    if a.0 == b.0 then V(a.0, Min(a.1, b.1), Max(a.1, b.1))
    else H(a.1, Min(a.0, b.0), Max(a.0, b.0))
  }

  /** `Edge::contains`: the point lies on the closed edge. */
  predicate EdgeContains(e: Edge, p: Pos) {
    match e
    case H(y, x1, x2) => y == p.1 && x1 <= p.0 <= x2
    case V(x, y1, y2) => x == p.0 && y1 <= p.1 <= y2
  }

  /** The edge between two tiles holds exactly the lattice points of the
      segment joining them, whichever tile comes first. */
  lemma NewEdgeContains(a: Pos, b: Pos, p: Pos)
    requires Aligned(a, b)
    ensures EdgeContains(NewEdge(a, b), p) <==> LineSegment.OnSegment(LineSegment.LineSegment(a, b), p)
    ensures NewEdge(a, b) == NewEdge(b, a)
  {
  }

  /** `crosses_horizontal_ray`, for vertical edges only: the edge is to the
      right of `p` and spans its row, bottom end included, top end not. */
  predicate CrossesRay(e: Edge, p: Pos)
    requires e.V?
  {
    e.x > p.0 && e.y1 <= p.1 < e.y2
  }

  /** A vertical edge crosses the rightward ray from `p` exactly when it
      holds a point of the ray other than its own upper end. */
  lemma CrossesRayMeaning(e: Edge, p: Pos)
    requires e.V?
    ensures CrossesRay(e, p) <==> exists q: Pos :: EdgeContains(e, q) && q.1 == p.1 && q.0 > p.0 && q.1 != e.y2
  {
    if CrossesRay(e, p) {
      var q: Pos := (e.x, p.1);
      assert EdgeContains(e, q);
    }
  }

  // ---------------------------------------------------------------------
  // Polygon

  /** The tiles listed, each one in line with the next and the last with
      the first: otherwise `Edge::new` panics while parsing. */
  predicate Closed(vs: seq<Pos>) {
    |vs| > 0 && forall i :: 0 <= i < |vs| ==> Aligned(vs[i], vs[Succ(|vs|, i)])
  }

  /** The index after `i` around a loop of `n`. */
  function Succ(n: nat, i: nat): (j: nat)
    requires i < n
    ensures j < n && j == (i + 1) % n
  {
    if i + 1 == n then
      assert (i + 1) % n == 0 by { ModSelf(n); }
      0
    else
      assert (i + 1) % n == i + 1;
      i + 1
  }

  lemma ModSelf(n: nat)
    requires n > 0
    ensures n % n == 0
  {
  }

  /** The tiles followed by the first tile again (`chain(once(&vertices[0]))`). */
  function Loop(vs: seq<Pos>): (r: seq<Pos>)
    requires |vs| > 0
    ensures |r| == |vs| + 1 && r[|vs|] == vs[0]
    ensures forall i :: 0 <= i < |vs| ==> r[i] == vs[i]
  {
    vs + [vs[0]]
  }

  /** The edges of the polygon, one per window of two consecutive tiles of
      the loop. */
  function Edges(vs: seq<Pos>): (es: seq<Edge>)
    requires Closed(vs)
    ensures |es| == |vs|
  {
    var l := Loop(vs);
    seq(|vs|, i requires 0 <= i < |vs| =>
      assert l[i + 1] == vs[Succ(|vs|, i)];
      NewEdge(l[i], l[i + 1]))
  }

  /** Edge `i` joins tile `i` to the next one, and the last edge closes the
      loop back to the first tile. */
  lemma EdgesJoinTiles(vs: seq<Pos>, i: nat)
    requires Closed(vs) && i < |vs|
    ensures Edges(vs)[i] == NewEdge(vs[i], vs[Succ(|vs|, i)])
    ensures i == |vs| - 1 ==> Edges(vs)[i] == NewEdge(vs[|vs| - 1], vs[0])
  {
    assert Loop(vs)[i + 1] == vs[Succ(|vs|, i)];
  }

  datatype Polygon = Polygon(vertices: seq<Pos>, edges: seq<Edge>)

  /** `Polygon::parse`, from the tiles already read. */
  function Parse(vs: seq<Pos>): (p: Polygon)
    requires Closed(vs)
    ensures p.vertices == vs && |p.edges| == |vs|
  {
    Polygon(vs, Edges(vs))
  }

  /** `is_on_edge`. */
  predicate IsOnEdge(poly: Polygon, p: Pos) {
    exists i :: 0 <= i < |poly.edges| && EdgeContains(poly.edges[i], p)
  }

  /** How many vertical edges cross the rightward ray from `p`. */
  function Crossings(es: seq<Edge>, p: Pos): (n: nat)
    ensures n <= |es|
  {
    if |es| == 0 then 0
    else Crossings(es[..|es| - 1], p) + (if es[|es| - 1].V? && CrossesRay(es[|es| - 1], p) then 1 else 0)
  }

  /** `is_bounded_by_edges`: an odd number of crossings. */
  predicate IsBoundedByEdges(poly: Polygon, p: Pos) {
    Crossings(poly.edges, p) % 2 == 1
  }

  /** `Polygon::contains`. */
  predicate Contains(poly: Polygon, p: Pos) {
    IsOnEdge(poly, p) || IsBoundedByEdges(poly, p)
  }

  lemma {:induction false} CrossingsAppend(a: seq<Edge>, b: seq<Edge>, p: Pos)
    ensures Crossings(a + b, p) == Crossings(a, p) + Crossings(b, p)
    decreases |b|
  {
    if |b| > 0 {
      var b' := b[..|b| - 1];
      assert (a + b)[..|a + b| - 1] == a + b';
      assert (a + b)[|a + b| - 1] == b[|b| - 1];
      CrossingsAppend(a, b', p);
    } else {
      assert a + b == a;
    }
  }

  lemma CrossingsOne(e: Edge, p: Pos)
    ensures Crossings([e], p) == if e.V? && CrossesRay(e, p) then 1 else 0
  {
    assert [e][..0] == [];
  }

  lemma CrossingsFirst(es: seq<Edge>, p: Pos)
    requires |es| > 0
    ensures Crossings(es, p) == (if es[0].V? && CrossesRay(es[0], p) then 1 else 0) + Crossings(es[1..], p)
  {
    assert es == [es[0]] + es[1..];
    CrossingsAppend([es[0]], es[1..], p);
    CrossingsOne(es[0], p);
  }

  /** Every red tile lies on the polygon: on the edge that starts at it. */
  lemma TilesAreContained(vs: seq<Pos>, i: nat)
    requires Closed(vs) && i < |vs|
    ensures Contains(Parse(vs), vs[i])
  {
    EdgesJoinTiles(vs, i);
    NewEdgeContains(vs[i], vs[Succ(|vs|, i)], vs[i]);
  }

  // ---------------------------------------------------------------------
  // Rectangles

  datatype Rect = Rect(x1: int, x2: int, y1: int, y2: int)

  /** `Rect::new`: the rectangle with the two tiles as opposite corners. */
  function NewRect(a: Pos, b: Pos): Rect {
    Rect(Min(a.0, b.0), Max(a.0, b.0), Min(a.1, b.1), Max(a.1, b.1))
  }

  /** `area`: the number of tiles, borders included. */
  function Area(r: Rect): int {
    (r.x2 - r.x1 + 1) * (r.y2 - r.y1 + 1)
  }

  function Abs(x: int): nat { if x < 0 then -x else x }

  /** The rectangle has its borders in order and the two tiles at opposite
      corners, does not depend on the order of the two tiles, and its area
      is the product of the two spans, so at least 1. */
  lemma NewRectArea(a: Pos, b: Pos)
    ensures var r := NewRect(a, b);
      && r.x1 <= r.x2 && r.y1 <= r.y2
      && {r.x1, r.x2} == {a.0, b.0} && {r.y1, r.y2} == {a.1, b.1}
      && InRect(r, a) && InRect(r, b)
    ensures NewRect(a, b) == NewRect(b, a)
    ensures Area(NewRect(a, b)) == (Abs(a.0 - b.0) + 1) * (Abs(a.1 - b.1) + 1)
    ensures Area(NewRect(a, b)) >= 1
  {
    var w, h := Abs(a.0 - b.0) + 1, Abs(a.1 - b.1) + 1;
    assert w * h >= 1 * h;
  }

  /** The tile lies in the rectangle, borders included. */
  predicate InRect(r: Rect, p: Pos) {
    r.x1 <= p.0 <= r.x2 && r.y1 <= p.1 <= r.y2
  }

  /** The half-open range `lo..hi` contains `v`. */
  predicate InRange(lo: int, hi: int, v: int) {
    lo <= v < hi
  }

  /** One arm of `is_cut_by_any`: a horizontal edge on an inner row whose
      half-open span holds the left or the right border, or a vertical
      edge on an inner column whose half-open span holds the bottom or the
      top border. */
  predicate CutBy(r: Rect, e: Edge) {
    match e
    case H(y, x1, x2) => InRange(r.y1 + 1, r.y2, y) && (InRange(x1, x2, r.x1) || InRange(x1, x2, r.x2))
    case V(x, y1, y2) => InRange(r.x1 + 1, r.x2, x) && (InRange(y1, y2, r.y1) || InRange(y1, y2, r.y2))
  }

  predicate IsCutByAny(r: Rect, es: seq<Edge>) {
    exists i :: 0 <= i < |es| && CutBy(r, es[i])
  }

  /** An edge cuts the rectangle exactly when it runs along an inner row
      (column) and holds a tile of the left or right (bottom or top) border
      together with the next tile to the right (above) of it. */
  lemma CutByMeaning(r: Rect, e: Edge)
    ensures e.H? ==> (CutBy(r, e) <==>
      r.y1 < e.y < r.y2 && exists x :: (x == r.x1 || x == r.x2) && EdgeContains(e, (x, e.y)) && EdgeContains(e, (x + 1, e.y)))
    ensures e.V? ==> (CutBy(r, e) <==>
      r.x1 < e.x < r.x2 && exists y :: (y == r.y1 || y == r.y2) && EdgeContains(e, (e.x, y)) && EdgeContains(e, (e.x, y + 1)))
  {
    if e.H? && CutBy(r, e) {
      var x := if InRange(e.x1, e.x2, r.x1) then r.x1 else r.x2;
      assert EdgeContains(e, (x, e.y)) && EdgeContains(e, (x + 1, e.y));
    }
    if e.V? && CutBy(r, e) {
      var y := if InRange(e.y1, e.y2, r.y1) then r.y1 else r.y2;
      assert EdgeContains(e, (e.x, y)) && EdgeContains(e, (e.x, y + 1));
    }
  }

  /** `are_corners_in`: all four corners are in the polygon. */
  predicate AreCornersIn(r: Rect, poly: Polygon) {
    && Contains(poly, (r.x1, r.y1))
    && Contains(poly, (r.x2, r.y2))
    && Contains(poly, (r.x1, r.y2))
    && Contains(poly, (r.x2, r.y1))
  }

  /** The filter of `valid_rectangles`. */
  predicate Valid(poly: Polygon, r: Rect) {
    !IsCutByAny(r, poly.edges) && AreCornersIn(r, poly)
  }

  // ---------------------------------------------------------------------
  // possible_rectangles, valid_rectangles and the two parts

  /** `combinations(2)`: every pair of tiles taken in list order. */
  function PairsFrom(vs: seq<Pos>, i: nat): (r: seq<(Pos, Pos)>)
    requires i <= |vs|
    decreases |vs| - i
  {
    if i == |vs| then []
    else seq(|vs| - i - 1, j requires 0 <= j < |vs| - i - 1 => (vs[i], vs[i + 1 + j])) + PairsFrom(vs, i + 1)
  }

  lemma {:induction false} PairsFromMembers(vs: seq<Pos>, i: nat, p: (Pos, Pos))
    requires i <= |vs|
    ensures p in PairsFrom(vs, i) <==> exists a, b :: i <= a < b < |vs| && p == (vs[a], vs[b])
    decreases |vs| - i
  {
    if i < |vs| {
      PairsFromMembers(vs, i + 1, p);
      var row := seq(|vs| - i - 1, j requires 0 <= j < |vs| - i - 1 => (vs[i], vs[i + 1 + j]));
      if exists a, b :: i <= a < b < |vs| && p == (vs[a], vs[b]) {
        var a, b :| i <= a < b < |vs| && p == (vs[a], vs[b]);
        if a == i {
          assert row[b - i - 1] == p;
        }
      }
      if p in row {
        var j :| 0 <= j < |row| && row[j] == p;
        assert p == (vs[i], vs[i + 1 + j]);
      }
    }
  }

  /** `possible_rectangles`: one rectangle per pair of tiles. */
  function PossibleRects(vs: seq<Pos>): (rs: seq<Rect>)
    ensures |rs| == |PairsFrom(vs, 0)|
  {
    var ps := PairsFrom(vs, 0);
    seq(|ps|, k requires 0 <= k < |ps| => NewRect(ps[k].0, ps[k].1))
  }

  /** A rectangle is possible exactly when two different tiles span it. */
  lemma PossibleRectsMembers(vs: seq<Pos>, r: Rect)
    ensures r in PossibleRects(vs) <==> exists a, b :: 0 <= a < b < |vs| && r == NewRect(vs[a], vs[b])
  {
    var ps := PairsFrom(vs, 0);
    var rs := PossibleRects(vs);
    if r in rs {
      var k :| 0 <= k < |rs| && rs[k] == r;
      PairsFromMembers(vs, 0, ps[k]);
    }
    if exists a, b :: 0 <= a < b < |vs| && r == NewRect(vs[a], vs[b]) {
      var a, b :| 0 <= a < b < |vs| && r == NewRect(vs[a], vs[b]);
      PairsFromMembers(vs, 0, (vs[a], vs[b]));
      var k :| 0 <= k < |ps| && ps[k] == (vs[a], vs[b]);
      assert rs[k] == r;
    }
  }

  /** The test a rectangle must pass in part two: the two filters of
      `valid_rectangles` as written, or the corrected test that every tile
      of the rectangle is in the polygon. */
  datatype Check = AsWritten | Corrected

  /** Every tile of the rectangle is in the polygon. */
  predicate Inside(poly: Polygon, r: Rect) {
    forall x, y :: r.x1 <= x <= r.x2 && r.y1 <= y <= r.y2 ==> Contains(poly, (x, y))
  }

  predicate Accepts(check: Check, poly: Polygon, r: Rect) {
    match check
    case AsWritten => Valid(poly, r)
    case Corrected => Inside(poly, r)
  }

  /** The rectangles passing the test, in order. */
  function Filter(check: Check, poly: Polygon, rs: seq<Rect>): (r: seq<Rect>)
    ensures forall x :: x in r <==> x in rs && Accepts(check, poly, x)
    ensures |r| <= |rs|
  {
    if |rs| == 0 then []
    else
      var rest := Filter(check, poly, rs[1..]);
      assert forall x :: x in rs <==> x == rs[0] || x in rs[1..];
      if Accepts(check, poly, rs[0]) then [rs[0]] + rest else rest
  }

  /** `valid_rectangles`. */
  function ValidRects(vs: seq<Pos>): seq<Rect>
    requires Closed(vs)
  {
    Filter(AsWritten, Parse(vs), PossibleRects(vs))
  }

  function Areas(rs: seq<Rect>): (a: seq<int>)
    ensures |a| == |rs|
  {
    seq(|rs|, i requires 0 <= i < |rs| => Area(rs[i]))
  }

  /** `Iterator::max` over areas: `None` for no rectangles. */
  function MaxOf(s: seq<int>): (m: Option<int>)
    ensures m == None <==> |s| == 0
    ensures m.Some? ==> m.value in s && forall x :: x in s ==> x <= m.value
    decreases |s|
  {
    if |s| == 0 then None
    else
      var rest := MaxOf(s[1..]);
      assert forall x :: x in s <==> x == s[0] || x in s[1..];
      if rest.Some? && rest.value > s[0] then rest else Some(s[0])
  }

  /** The largest area among some rectangles. */
  function LargestArea(rs: seq<Rect>): (m: Option<int>)
    ensures m == None <==> |rs| == 0
    ensures m.Some? ==> (exists r :: r in rs && m.value == Area(r)) && forall r :: r in rs ==> Area(r) <= m.value
  {
    var a := Areas(rs);
    var m := MaxOf(a);
    if m.Some? then
      assert forall r :: r in rs ==> Area(r) in a by {
        forall r | r in rs ensures Area(r) in a {
          var i :| 0 <= i < |rs| && rs[i] == r;
          assert a[i] == Area(r);
        }
      }
      var i :| 0 <= i < |a| && a[i] == m.value;
      assert rs[i] in rs;
      m
    else m
  }

  /** The largest area is that of a rectangle no other one exceeds. */
  lemma LargestAreaIs(rs: seq<Rect>, r: Rect)
    requires r in rs && forall x :: x in rs ==> Area(x) <= Area(r)
    ensures LargestArea(rs) == Some(Area(r))
  {
  }

  /** `part_one`. It parses the polygon first, so it panics, like part two,
      on an empty list or a diagonal pair of consecutive tiles. */
  function PartOne(vs: seq<Pos>): Option<int>
    requires Closed(vs)
  {
    LargestArea(PossibleRects(vs))
  }

  /** `part_two`. */
  function PartTwo(vs: seq<Pos>): Option<int>
    requires Closed(vs)
  {
    LargestArea(ValidRects(vs))
  }

  /** Part two keeping only rectangles that lie wholly in the polygon. */
  function PartTwoCorrected(vs: seq<Pos>): Option<int>
    requires Closed(vs)
  {
    LargestArea(Filter(Corrected, Parse(vs), PossibleRects(vs)))
  }

  /** Part one is the largest rectangle spanned by two different tiles, and
      there is none when the loop has a single tile. */
  lemma PartOneSpec(vs: seq<Pos>)
    requires Closed(vs)
    ensures PartOne(vs) == None <==> |vs| == 1
    ensures PartOne(vs).Some? ==>
      (exists a, b :: 0 <= a < b < |vs| && PartOne(vs).value == Area(NewRect(vs[a], vs[b])))
      && forall a, b :: 0 <= a < b < |vs| ==> Area(NewRect(vs[a], vs[b])) <= PartOne(vs).value
  {
    var rs := PossibleRects(vs);
    if |vs| >= 2 {
      PossibleRectsMembers(vs, NewRect(vs[0], vs[1]));
    } else if |rs| > 0 {
      PossibleRectsMembers(vs, rs[0]);
    }
    if PartOne(vs).Some? {
      var r :| r in rs && PartOne(vs).value == Area(r);
      PossibleRectsMembers(vs, r);
      forall a, b | 0 <= a < b < |vs| ensures Area(NewRect(vs[a], vs[b])) <= PartOne(vs).value {
        PossibleRectsMembers(vs, NewRect(vs[a], vs[b]));
      }
    }
  }

  /** Part two keeps a subset of part one's rectangles: its answer is a
      rectangle part one also considered, and never larger than part
      one's. */
  lemma PartTwoAtMostPartOne(vs: seq<Pos>)
    requires Closed(vs)
    ensures PartTwo(vs).Some? ==> PartOne(vs).Some? && PartTwo(vs).value <= PartOne(vs).value
    ensures PartTwo(vs).Some? ==> exists r :: r in PossibleRects(vs) && Valid(Parse(vs), r) && PartTwo(vs).value == Area(r)
  {
    if PartTwo(vs).Some? {
      var r :| r in ValidRects(vs) && PartTwo(vs).value == Area(r);
      assert r in PossibleRects(vs);
    }
  }

  /** The corrected part two answers the largest rectangle spanned by two
      tiles that lies wholly in the polygon, and `None` when there is none. */
  lemma PartTwoCorrectedSpec(vs: seq<Pos>)
    requires Closed(vs)
    ensures PartTwoCorrected(vs) == None <==>
      forall a, b :: 0 <= a < b < |vs| ==> !Inside(Parse(vs), NewRect(vs[a], vs[b]))
    ensures PartTwoCorrected(vs).Some? ==>
      (exists a, b :: 0 <= a < b < |vs| && Inside(Parse(vs), NewRect(vs[a], vs[b]))
         && PartTwoCorrected(vs).value == Area(NewRect(vs[a], vs[b])))
      && forall a, b :: 0 <= a < b < |vs| && Inside(Parse(vs), NewRect(vs[a], vs[b])) ==>
           Area(NewRect(vs[a], vs[b])) <= PartTwoCorrected(vs).value
  {
    var poly := Parse(vs);
    var good := Filter(Corrected, poly, PossibleRects(vs));
    forall a, b | 0 <= a < b < |vs| && Inside(poly, NewRect(vs[a], vs[b])) ensures NewRect(vs[a], vs[b]) in good {
      PossibleRectsMembers(vs, NewRect(vs[a], vs[b]));
    }
    if |good| > 0 {
      PossibleRectsMembers(vs, good[0]);
    }
    if PartTwoCorrected(vs).Some? {
      var r :| r in good && PartTwoCorrected(vs).value == Area(r);
      PossibleRectsMembers(vs, r);
    }
  }

  /** A rectangle wholly in the polygon has its corners in it: the corrected
      test implies the corner filter. */
  lemma InsideHasCornersIn(poly: Polygon, r: Rect)
    requires r.x1 <= r.x2 && r.y1 <= r.y2 && Inside(poly, r)
    ensures AreCornersIn(r, poly)
  {
    assert Contains(poly, (r.x1, r.y1)) && Contains(poly, (r.x2, r.y2));
    assert Contains(poly, (r.x1, r.y2)) && Contains(poly, (r.x2, r.y1));
  }

  // ---------------------------------------------------------------------
  // Ray casting on a rectangle

  /** The four corners of a rectangle, walked around. */
  function Box(x1: int, x2: int, y1: int, y2: int): seq<Pos> {
    [(x1, y1), (x2, y1), (x2, y2), (x1, y2)]
  }

  lemma BoxEdges(x1: int, x2: int, y1: int, y2: int)
    requires x1 < x2 && y1 < y2
    ensures Closed(Box(x1, x2, y1, y2))
    ensures Edges(Box(x1, x2, y1, y2)) == [H(y1, x1, x2), V(x2, y1, y2), H(y2, x1, x2), V(x1, y1, y2)]
  {
    var vs := Box(x1, x2, y1, y2);
    assert Closed(vs) by {
      forall i | 0 <= i < 4 ensures Aligned(vs[i], vs[Succ(4, i)]) {
      }
    }
    EdgesJoinTiles(vs, 0);
    EdgesJoinTiles(vs, 1);
    EdgesJoinTiles(vs, 2);
    EdgesJoinTiles(vs, 3);
  }

  /** On the polygon that is a rectangle, ray casting finds exactly the
      tiles of the rectangle. */
  lemma BoxContains(x1: int, x2: int, y1: int, y2: int, p: Pos)
    requires x1 < x2 && y1 < y2
    ensures Closed(Box(x1, x2, y1, y2))
    ensures Contains(Parse(Box(x1, x2, y1, y2)), p) <==> x1 <= p.0 <= x2 && y1 <= p.1 <= y2
  {
    BoxEdges(x1, x2, y1, y2);
    var es := Edges(Box(x1, x2, y1, y2));
    var poly := Parse(Box(x1, x2, y1, y2));
    var n := Crossings(es, p);
    assert es == [es[0]] + [es[1]] + [es[2]] + [es[3]];
    CrossingsAppend([es[0]] + [es[1]] + [es[2]], [es[3]], p);
    CrossingsAppend([es[0]] + [es[1]], [es[2]], p);
    CrossingsAppend([es[0]], [es[1]], p);
    CrossingsOne(es[0], p);
    CrossingsOne(es[1], p);
    CrossingsOne(es[2], p);
    CrossingsOne(es[3], p);
    assert n == (if x2 > p.0 && y1 <= p.1 < y2 then 1 else 0) + (if x1 > p.0 && y1 <= p.1 < y2 then 1 else 0);
    if IsOnEdge(poly, p) {
      var i :| 0 <= i < 4 && EdgeContains(es[i], p);
    }
    if x1 <= p.0 <= x2 && y1 <= p.1 <= y2 && !IsOnEdge(poly, p) {
      assert !EdgeContains(es[0], p) && !EdgeContains(es[1], p) && !EdgeContains(es[2], p) && !EdgeContains(es[3], p);
      assert n == 1;
    }
  }

  // ---------------------------------------------------------------------
  // A polygon with a notch that the cut test misses

  /** A 10 by 10 square with a notch cut down from its top border between
      columns 4 and 6, to row 5. */
  function Notch(): seq<Pos> {
    [(0, 0), (10, 0), (10, 10), (6, 10), (6, 5), (4, 5), (4, 10), (0, 10)]
  }

  function NotchEdges(): seq<Edge> {
    [H(0, 0, 10), V(10, 0, 10), H(10, 6, 10), V(6, 5, 10), H(5, 4, 6), V(4, 5, 10), H(10, 0, 4), V(0, 0, 10)]
  }

  lemma NotchParse()
    ensures Closed(Notch())
    ensures Parse(Notch()).edges == NotchEdges()
  {
    var vs := Notch();
    assert Closed(vs) by {
      forall i | 0 <= i < 8 ensures Aligned(vs[i], vs[Succ(8, i)]) {
      }
    }
    forall i | 0 <= i < 8 ensures Edges(vs)[i] == NotchEdges()[i] {
      EdgesJoinTiles(vs, i);
    }
  }

  /** The ray from `p` crosses the right border, the two sides of the
      notch and the left border when they are to its right and span its
      row. */
  lemma NotchCrossings(p: Pos)
    ensures Crossings(NotchEdges(), p) ==
      (if 10 > p.0 && 0 <= p.1 < 10 then 1 else 0) + (if 6 > p.0 && 5 <= p.1 < 10 then 1 else 0)
      + (if 4 > p.0 && 5 <= p.1 < 10 then 1 else 0) + (if 0 > p.0 && 0 <= p.1 < 10 then 1 else 0)
  {
    var es := NotchEdges();
    CrossingsFirst(es, p);
    CrossingsFirst(es[1..], p);
    CrossingsFirst(es[2..], p);
    CrossingsFirst(es[3..], p);
    CrossingsFirst(es[4..], p);
    CrossingsFirst(es[5..], p);
    CrossingsFirst(es[6..], p);
    CrossingsFirst(es[7..], p);
    assert es[1..][1..] == es[2..] && es[2..][1..] == es[3..] && es[3..][1..] == es[4..];
    assert es[4..][1..] == es[5..] && es[5..][1..] == es[6..] && es[6..][1..] == es[7..];
    assert es[7..][1..] == [];
  }

  /** The tile (5, 8) lies in the notch, outside the polygon. */
  lemma NotchOutside()
    ensures Closed(Notch()) && !Contains(Parse(Notch()), (5, 8))
  {
    NotchParse();
    NotchCrossings((5, 8));
  }

  /** The square from (0, 0) to (10, 10) passes both filters as written:
      no edge cuts it and its corners are tiles. */
  lemma NotchSquareValid()
    ensures Closed(Notch()) && Valid(Parse(Notch()), NewRect((0, 0), (10, 10)))
  {
    NotchParse();
    var vs := Notch();
    var r := NewRect((0, 0), (10, 10));
    var es := NotchEdges();
    forall i | 0 <= i < 8 ensures !CutBy(r, es[i]) {
    }
    TilesAreContained(vs, 0);
    TilesAreContained(vs, 1);
    TilesAreContained(vs, 2);
    TilesAreContained(vs, 7);
  }

  lemma MulLe(a: int, b: int, c: int, d: int)
    requires 0 <= a <= c && 0 <= b <= d
    ensures a * b <= c * d
  {
    assert a * b <= c * b;
    assert c * b <= c * d;
  }

  /** Within the square, only the square itself has area 121. */
  lemma NotchAreaBound(r: Rect)
    requires 0 <= r.x1 <= r.x2 <= 10 && 0 <= r.y1 <= r.y2 <= 10
    ensures Area(r) <= 121
    ensures Area(r) == 121 ==> r == Rect(0, 10, 0, 10)
  {
    var w, h := r.x2 - r.x1 + 1, r.y2 - r.y1 + 1;
    MulLe(w, h, 11, 11);
    if w < 11 {
      MulLe(w, h, 10, 11);
    } else if h < 11 {
      MulLe(w, h, 11, 10);
    }
  }

  predicate InSquare(p: Pos) {
    0 <= p.0 <= 10 && 0 <= p.1 <= 10
  }

  lemma NotchTilesInSquare(i: nat)
    requires i < |Notch()|
    ensures InSquare(Notch()[i])
  {
  }

  lemma NotchRectBound(r: Rect)
    requires r in PossibleRects(Notch())
    ensures Area(r) <= 121
    ensures Area(r) == 121 ==> r == Rect(0, 10, 0, 10)
  {
    var vs := Notch();
    PossibleRectsMembers(vs, r);
    var a, b :| 0 <= a < b < |vs| && r == NewRect(vs[a], vs[b]);
    NotchTilesInSquare(a);
    NotchTilesInSquare(b);
    SquareRect(vs[a], vs[b]);
  }

  lemma SquareRect(a: Pos, b: Pos)
    requires InSquare(a) && InSquare(b)
    ensures Area(NewRect(a, b)) <= 121
    ensures Area(NewRect(a, b)) == 121 ==> NewRect(a, b) == Rect(0, 10, 0, 10)
  {
    NotchAreaBound(NewRect(a, b));
  }

  /** The strip left of the notch lies wholly in the polygon. */
  lemma NotchLeftStripInside()
    ensures Closed(Notch()) && Inside(Parse(Notch()), NewRect((0, 0), (4, 10)))
  {
    NotchParse();
    var poly := Parse(Notch());
    var es := NotchEdges();
    forall x, y | 0 <= x <= 4 && 0 <= y <= 10 ensures Contains(poly, (x, y)) {
      NotchCrossings((x, y));
      if x == 0 {
        assert EdgeContains(es[7], (x, y));
      } else if y == 10 {
        assert EdgeContains(es[6], (x, y));
      } else if x == 4 && y >= 5 {
        assert EdgeContains(es[5], (x, y));
      }
    }
  }

  /** On the notched square, part two as written answers the whole square,
      121 tiles, though the tile (5, 8) in it is outside the polygon; the
      corrected part two answers a smaller rectangle. */
  lemma NotchPartTwo()
    ensures Closed(Notch())
    ensures PartTwo(Notch()) == Some(121)
    ensures InRect(NewRect((0, 0), (10, 10)), (5, 8)) && !Contains(Parse(Notch()), (5, 8))
    ensures PartTwoCorrected(Notch()).Some? && PartTwoCorrected(Notch()).value < 121
  {
    var vs := Notch();
    NotchParse();
    NotchSquareValid();
    NotchOutside();
    NotchLeftStripInside();
    var square := NewRect((0, 0), (10, 10));
    var strip := NewRect((0, 0), (4, 10));
    PossibleRectsMembers(vs, square);
    assert square == NewRect(vs[0], vs[2]);
    PossibleRectsMembers(vs, strip);
    assert strip == NewRect(vs[0], vs[6]);
    var valid := ValidRects(vs);
    assert square in valid;
    forall r | r in valid ensures Area(r) <= 121 {
      NotchRectBound(r);
    }
    assert Area(square) == 121;
    LargestAreaIs(valid, square);
    var good := Filter(Corrected, Parse(vs), PossibleRects(vs));
    assert strip in good;
    assert !Inside(Parse(vs), square);
    var m := PartTwoCorrected(vs).value;
    var r :| r in good && m == Area(r);
    NotchRectBound(r);
  }
}
