/** Model of src/bin/08.rs: junction boxes joined into circuits, closest
    pairs first. */
module Day08 {
  import opened Seqs
  import opened Wrappers

  type Pos3 = (int, int, int)

  function Sq(x: int): (r: int)
    ensures r >= 0 && (r == 0 <==> x == 0)
  {
    x * x
  }

  /** `distance_sq`: the squared Euclidean distance. */
  function DistanceSq(a: Pos3, b: Pos3): (d: int)
    ensures d >= 0
    ensures d == 0 <==> a == b
  {
    Sq(b.0 - a.0) + Sq(b.1 - a.1) + Sq(b.2 - a.2)
  }

  lemma DistanceSqSymmetric(a: Pos3, b: Pos3)
    ensures DistanceSq(a, b) == DistanceSq(b, a)
  {
    assert Sq(b.0 - a.0) == Sq(a.0 - b.0);
    assert Sq(b.1 - a.1) == Sq(a.1 - b.1);
    assert Sq(b.2 - a.2) == Sq(a.2 - b.2);
  }

  // ---------------------------------------------------------------------
  // Ordered sets of keys (`BTreeSet` of tuples, ordered lexicographically)

  /** Lexicographic order on integer sequences: Rust's derived order on
      tuples, once flattened. */
  predicate Lt(a: seq<int>, b: seq<int>)
    decreases |a|
  {
    |a| > 0 && |b| > 0 && (a[0] < b[0] || (a[0] == b[0] && Lt(a[1..], b[1..])))
  }

  lemma {:induction false} LtIrreflexive(a: seq<int>)
    ensures !Lt(a, a)
    decreases |a|
  {
    if |a| > 0 {
      LtIrreflexive(a[1..]);
    }
  }

  lemma {:induction false} LtTransitive(a: seq<int>, b: seq<int>, c: seq<int>)
    requires Lt(a, b) && Lt(b, c)
    ensures Lt(a, c)
    decreases |a|
  {
    if a[0] == b[0] == c[0] {
      LtTransitive(a[1..], b[1..], c[1..]);
    }
  }

  lemma {:induction false} LtTotal(a: seq<int>, b: seq<int>)
    requires |a| == |b| && a != b
    ensures Lt(a, b) || Lt(b, a)
    decreases |a|
  {
    if a[0] == b[0] {
      assert a == [a[0]] + a[1..] && b == [b[0]] + b[1..];
      LtTotal(a[1..], b[1..]);
    }
  }

  predicate StrictlySorted(s: seq<seq<int>>) {
    forall i, j :: 0 <= i < j < |s| ==> Lt(s[i], s[j])
  }

  predicate SameLength(s: seq<seq<int>>, n: nat) {
    forall i :: 0 <= i < |s| ==> |s[i]| == n
  }

  /** `BTreeSet::insert`: add `x` in order, unless it is already there. */
  function Insert(x: seq<int>, s: seq<seq<int>>, n: nat): (r: seq<seq<int>>)
    requires |x| == n && SameLength(s, n) && StrictlySorted(s)
    ensures SameLength(r, n) && StrictlySorted(r)
    ensures forall y :: y in r <==> y == x || y in s
    decreases |s|
  {
    if |s| == 0 then [x]
    else if x == s[0] then s
    else if Lt(x, s[0]) then
      assert forall j :: 0 < j < |s| ==> Lt(x, s[j]) by {
        forall j | 0 < j < |s| ensures Lt(x, s[j]) {
          LtTransitive(x, s[0], s[j]);
        }
      }
      [x] + s
    else
      LtTotal(x, s[0]);
      var tail := s[1..];
      assert StrictlySorted(tail) by {
        forall i, j | 0 <= i < j < |tail| ensures Lt(tail[i], tail[j]) {
          assert tail[i] == s[i + 1] && tail[j] == s[j + 1];
        }
      }
      var rest := Insert(x, tail, n);
      assert forall y :: y in rest ==> Lt(s[0], y) by {
        forall y | y in rest ensures Lt(s[0], y) {
          if y != x {
            var k :| 0 <= k < |tail| && tail[k] == y;
            assert s[k + 1] == y;
          }
        }
      }
      assert s == [s[0]] + tail;
      [s[0]] + rest
  }

  /** The elements of a `BTreeSet` built from `xs`, in order. */
  function SortUnique(xs: seq<seq<int>>, n: nat): (r: seq<seq<int>>)
    requires SameLength(xs, n)
    ensures SameLength(r, n) && StrictlySorted(r)
    ensures forall y :: y in r <==> y in xs
    decreases |xs|
  {
    if |xs| == 0 then []
    else
      var last := xs[|xs| - 1];
      var init := xs[..|xs| - 1];
      assert xs == init + [last];
      Insert(last, SortUnique(init, n), n)
  }

  // ---------------------------------------------------------------------
  // ordered_by_distance

  type Pair = (Pos3, Pos3)

  /** `combinations(2)`: every pair of boxes taken in list order. */
  function CombosFrom(boxes: seq<Pos3>, i: nat): (r: seq<Pair>)
    requires i <= |boxes|
    decreases |boxes| - i
  {
    if i == |boxes| then []
    else Row(boxes, i) + CombosFrom(boxes, i + 1)
  }

  /** The pairs of box i with each later box, in list order. */
  function Row(boxes: seq<Pos3>, i: nat): (r: seq<Pair>)
    requires i < |boxes|
    ensures |r| == |boxes| - i - 1
  {
    seq(|boxes| - i - 1, j requires 0 <= j < |boxes| - i - 1 => (boxes[i], boxes[i + 1 + j]))
  }

  lemma RowMembers(boxes: seq<Pos3>, i: nat, p: Pair)
    requires i < |boxes|
    ensures p in Row(boxes, i) <==> exists b :: i < b < |boxes| && p == (boxes[i], boxes[b])
  {
    var row := Row(boxes, i);
    if exists b :: i < b < |boxes| && p == (boxes[i], boxes[b]) {
      var b :| i < b < |boxes| && p == (boxes[i], boxes[b]);
      assert row[b - i - 1] == p;
    }
    if p in row {
      var j :| 0 <= j < |row| && row[j] == p;
      assert p == (boxes[i], boxes[i + 1 + j]);
    }
  }

  function Combos(boxes: seq<Pos3>): seq<Pair> {
    CombosFrom(boxes, 0)
  }

  lemma {:induction false} CombosFromMembers(boxes: seq<Pos3>, i: nat, p: Pair)
    requires i <= |boxes|
    ensures p in CombosFrom(boxes, i) <==> exists a, b :: i <= a < b < |boxes| && p == (boxes[a], boxes[b])
    decreases |boxes| - i
  {
    if i < |boxes| {
      assert p in CombosFrom(boxes, i) <==> p in Row(boxes, i) || p in CombosFrom(boxes, i + 1);
      assert p in CombosFrom(boxes, i + 1) <==> exists a, b :: i + 1 <= a < b < |boxes| && p == (boxes[a], boxes[b]) by {
        CombosFromMembers(boxes, i + 1, p);
      }
      assert p in Row(boxes, i) <==> exists b :: i < b < |boxes| && p == (boxes[i], boxes[b]) by {
        RowMembers(boxes, i, p);
      }
      if exists a, b :: i <= a < b < |boxes| && p == (boxes[a], boxes[b]) {
        var a, b :| i <= a < b < |boxes| && p == (boxes[a], boxes[b]);
        if a == i {
          assert p in Row(boxes, i);
        } else {
          assert p in CombosFrom(boxes, i + 1);
        }
      }
    }
  }

  /** A pair is one of the combinations exactly when it is two boxes at
      different places of the list, in list order. */
  lemma CombosMembers(boxes: seq<Pos3>, p: Pair)
    ensures p in Combos(boxes) <==> exists a, b :: 0 <= a < b < |boxes| && p == (boxes[a], boxes[b])
  {
    CombosFromMembers(boxes, 0, p);
  }

  /** The `BTreeSet` entry `(d, a, b)`, flattened. */
  function Key(p: Pair): (k: seq<int>)
    ensures |k| == 7
  {
    [DistanceSq(p.0, p.1), p.0.0, p.0.1, p.0.2, p.1.0, p.1.1, p.1.2]
  }

  function Decode(k: seq<int>): Pair
    requires |k| == 7
  {
    ((k[1], k[2], k[3]), (k[4], k[5], k[6]))
  }

  function Min(a: nat, b: nat): nat { if a <= b then a else b }

  /** The distinct combinations ordered by (distance, first box, second box). */
  function SortedKeys(boxes: seq<Pos3>): (r: seq<seq<int>>)
    ensures SameLength(r, 7) && StrictlySorted(r)
    ensures forall k :: k in r <==> exists p :: p in Combos(boxes) && k == Key(p)
  {
    var combos := Combos(boxes);
    var keys := seq(|combos|, i requires 0 <= i < |combos| => Key(combos[i]));
    var r := SortUnique(keys, 7);
    assert forall k :: k in r <==> exists p :: p in combos && k == Key(p) by {
      forall k ensures k in r <==> exists p :: p in combos && k == Key(p) {
        if exists p :: p in combos && k == Key(p) {
          var p :| p in combos && k == Key(p);
          var i :| 0 <= i < |combos| && combos[i] == p;
          assert keys[i] == k;
        }
      }
    }
    r
  }

  /** `ordered_by_distance(count)`: the first `count` of them, as pairs. */
  function OrderedByDistance(boxes: seq<Pos3>, count: nat): (r: seq<Pair>)
    ensures |r| == Min(count, |SortedKeys(boxes)|)
  {
    var sorted := SortedKeys(boxes);
    var m := Min(count, |sorted|);
    seq(m, i requires 0 <= i < m => Decode(sorted[i]))
  }

  lemma OrderedEntry(boxes: seq<Pos3>, count: nat, i: nat)
    requires i < |OrderedByDistance(boxes, count)|
    ensures OrderedByDistance(boxes, count)[i] in Combos(boxes)
    ensures Key(OrderedByDistance(boxes, count)[i]) == SortedKeys(boxes)[i]
  {
    var sorted := SortedKeys(boxes);
    assert sorted[i] in sorted;
    var p :| p in Combos(boxes) && sorted[i] == Key(p);
  }

  /** `ordered_by_distance` returns at most `count` pairs of boxes, without
      repetition and closest first; a combination left out is no closer
      than any returned pair, and only when `count` pairs were returned. */
  lemma OrderedByDistanceSpec(boxes: seq<Pos3>, count: nat)
    ensures var r := OrderedByDistance(boxes, count);
      && |r| <= count
      && (forall i :: 0 <= i < |r| ==> r[i] in Combos(boxes))
      && (forall i, j :: 0 <= i < j < |r| ==> r[i] != r[j] && DistanceSq(r[i].0, r[i].1) <= DistanceSq(r[j].0, r[j].1))
      && (forall p :: p in Combos(boxes) && p !in r ==>
            |r| == count && forall i :: 0 <= i < |r| ==> DistanceSq(r[i].0, r[i].1) <= DistanceSq(p.0, p.1))
  {
    var r := OrderedByDistance(boxes, count);
    var sorted := SortedKeys(boxes);
    forall i | 0 <= i < |r| ensures r[i] in Combos(boxes) && Key(r[i]) == sorted[i] {
      OrderedEntry(boxes, count, i);
    }
    forall i, j | 0 <= i < j < |r|
      ensures r[i] != r[j] && DistanceSq(r[i].0, r[i].1) <= DistanceSq(r[j].0, r[j].1)
    {
      assert Lt(sorted[i], sorted[j]);
      LtIrreflexive(sorted[i]);
    }
    forall p | p in Combos(boxes) && p !in r
      ensures |r| == count && forall i :: 0 <= i < |r| ==> DistanceSq(r[i].0, r[i].1) <= DistanceSq(p.0, p.1)
    {
      assert Key(p) in sorted;
      var k :| 0 <= k < |sorted| && sorted[k] == Key(p);
      forall i | 0 <= i < |r| ensures DistanceSq(r[i].0, r[i].1) <= DistanceSq(p.0, p.1) {
        assert Lt(sorted[i], sorted[k]);
      }
    }
  }

  // ---------------------------------------------------------------------
  // combine

  /** The boxes, the circuit id of every box joined so far, and the next
      unused id. */
  datatype Boxes = Boxes(boxes: seq<Pos3>, circuits: map<Pos3, nat>, next: nat)

  /** `Boxes::parse`: no box belongs to a circuit yet. */
  function Parse(boxes: seq<Pos3>): Boxes {
    Boxes(boxes, map[], 0)
  }

  /** `combine(a, b)`: put `a` and `b` in one circuit. */
  function Combine(st: Boxes, a: Pos3, b: Pos3): (r: Boxes)
    ensures r.boxes == st.boxes
    ensures r.circuits.Keys == st.circuits.Keys + {a, b}
    ensures a in r.circuits && b in r.circuits && r.circuits[a] == r.circuits[b]
    ensures r.next == if a !in st.circuits && b !in st.circuits then st.next + 1 else st.next
    // merging two circuits relabels exactly the members of `b`'s circuit
    ensures a in st.circuits && b in st.circuits ==> forall k :: k in st.circuits ==>
      r.circuits[k] == if st.circuits[k] == st.circuits[b] then st.circuits[a] else st.circuits[k]
    // joining a new box changes no existing entry
    ensures !(a in st.circuits && b in st.circuits) ==> forall k :: k in st.circuits ==> r.circuits[k] == st.circuits[k]
    ensures IdsBelow(st) ==> IdsBelow(r)
  {
    var c := st.circuits;
    if a in c && b in c then
      if c[a] != c[b] then
        var c1, c2 := c[a], c[b];
        Boxes(st.boxes, map k | k in c :: if c[k] == c2 then c1 else c[k], st.next)
      else st
    else if a in c then Boxes(st.boxes, c[b := c[a]], st.next)
    else if b in c then Boxes(st.boxes, c[a := c[b]], st.next)
    else Boxes(st.boxes, c[a := st.next][b := st.next], st.next + 1)
  }

  /** Every id in use is below `next_circuit`. */
  predicate IdsBelow(st: Boxes) {
    forall k :: k in st.circuits ==> st.circuits[k] < st.next
  }

  // ---------------------------------------------------------------------
  // Circuits are the connected components of the joined pairs

  /** `p` and `q` were joined directly. */
  predicate Linked(e: set<Pair>, p: Pos3, q: Pos3) {
    (p, q) in e || (q, p) in e
  }

  /** A walk along joined pairs. */
  predicate Chain(e: set<Pair>, w: seq<Pos3>) {
    forall i :: 0 <= i < |w| - 1 ==> Linked(e, w[i], w[i + 1])
  }

  /** `x` and `y` are connected through joined pairs. */
  ghost predicate Connected(e: set<Pair>, x: Pos3, y: Pos3) {
    exists w :: |w| > 0 && w[0] == x && w[|w| - 1] == y && Chain(e, w)
  }

  function Endpoints(e: set<Pair>): set<Pos3> {
    (set p | p in e :: p.0) + (set p | p in e :: p.1)
  }

  lemma ConnectedRefl(e: set<Pair>, x: Pos3)
    ensures Connected(e, x, x)
  {
    assert Chain(e, [x]);
  }

  lemma ConnectedEdge(e: set<Pair>, x: Pos3, y: Pos3)
    requires Linked(e, x, y)
    ensures Connected(e, x, y)
  {
    assert Chain(e, [x, y]);
  }

  lemma ConnectedSym(e: set<Pair>, x: Pos3, y: Pos3)
    requires Connected(e, x, y)
    ensures Connected(e, y, x)
  {
    var w :| |w| > 0 && w[0] == x && w[|w| - 1] == y && Chain(e, w);
    var n := |w|;
    var v := seq(n, i requires 0 <= i < n => w[n - 1 - i]);
    forall i | 0 <= i < n - 1 ensures Linked(e, v[i], v[i + 1]) {
      assert Linked(e, w[n - 2 - i], w[n - 1 - i]);
    }
    assert v[0] == y && v[n - 1] == x && Chain(e, v);
  }

  lemma ConnectedTrans(e: set<Pair>, x: Pos3, y: Pos3, z: Pos3)
    requires Connected(e, x, y) && Connected(e, y, z)
    ensures Connected(e, x, z)
  {
    var w1 :| |w1| > 0 && w1[0] == x && w1[|w1| - 1] == y && Chain(e, w1);
    var w2 :| |w2| > 0 && w2[0] == y && w2[|w2| - 1] == z && Chain(e, w2);
    var w := w1 + w2[1..];
    forall i | 0 <= i < |w| - 1 ensures Linked(e, w[i], w[i + 1]) {
      if i < |w1| - 1 {
        assert w[i] == w1[i] && w[i + 1] == w1[i + 1];
      } else {
        var j := i - |w1| + 1;
        assert w[i] == w2[j] && w[i + 1] == w2[j + 1];
      }
    }
    assert w[|w| - 1] == z;
  }

  lemma ConnectedMono(e: set<Pair>, e2: set<Pair>, x: Pos3, y: Pos3)
    requires e <= e2 && Connected(e, x, y)
    ensures Connected(e2, x, y)
  {
    var w :| |w| > 0 && w[0] == x && w[|w| - 1] == y && Chain(e, w);
    assert Chain(e2, w);
  }

  /** Joined boxes share an id. */
  predicate JoinedShare(st: Boxes, e: set<Pair>) {
    forall p :: p in e ==> p.0 in st.circuits && p.1 in st.circuits && st.circuits[p.0] == st.circuits[p.1]
  }

  /** Boxes sharing an id are connected. */
  ghost predicate SharedConnected(st: Boxes, e: set<Pair>) {
    forall x, y :: x in st.circuits && y in st.circuits && st.circuits[x] == st.circuits[y] ==> Connected(e, x, y)
  }

  /** What `combine` keeps true of the circuits after joining the pairs `e`:
      the boxes with a circuit are the ends of joined pairs, ids are below
      `next_circuit`, joined boxes share an id, and boxes sharing an id are
      connected. */
  ghost predicate Inv(st: Boxes, e: set<Pair>) {
    && st.circuits.Keys == Endpoints(e)
    && IdsBelow(st)
    && JoinedShare(st, e)
    && SharedConnected(st, e)
  }

  lemma InvEmpty(boxes: seq<Pos3>)
    ensures Inv(Parse(boxes), {})
  {
  }

  lemma EndpointsAdd(e: set<Pair>, a: Pos3, b: Pos3)
    ensures Endpoints(e + {(a, b)}) == Endpoints(e) + {a, b}
  {
    var e2 := e + {(a, b)};
    assert (a, b).0 in (set p | p in e2 :: p.0);
    assert (a, b).1 in (set p | p in e2 :: p.1);
  }

  /** `combine` keeps joined boxes together, whichever case applies: it
      never separates two boxes that shared an id, and gives `a` and `b`
      the same id. */
  lemma CombineShares(st: Boxes, e: set<Pair>, a: Pos3, b: Pos3)
    requires JoinedShare(st, e)
    ensures JoinedShare(Combine(st, a, b), e + {(a, b)})
  {
    var c, r := st.circuits, Combine(st, a, b).circuits;
    forall p | p in e ensures r[p.0] == r[p.1] {
      assert c[p.0] == c[p.1];
    }
  }

  lemma CombineSameConnected(st: Boxes, e: set<Pair>, a: Pos3, b: Pos3)
    requires SharedConnected(st, e) && a in st.circuits && b in st.circuits && st.circuits[a] == st.circuits[b]
    ensures SharedConnected(Combine(st, a, b), e + {(a, b)})
  {
    var e2 := e + {(a, b)};
    forall x, y | x in st.circuits && y in st.circuits && st.circuits[x] == st.circuits[y]
      ensures Connected(e2, x, y)
    {
      ConnectedMono(e, e2, x, y);
    }
  }

  lemma CombineMergeConnected(st: Boxes, e: set<Pair>, a: Pos3, b: Pos3)
    requires SharedConnected(st, e) && a in st.circuits && b in st.circuits && st.circuits[a] != st.circuits[b]
    ensures SharedConnected(Combine(st, a, b), e + {(a, b)})
  {
    var e2 := e + {(a, b)};
    var c, r := st.circuits, Combine(st, a, b).circuits;
    ConnectedEdge(e2, a, b);
    ConnectedSym(e2, a, b);
    forall x, y | x in r && y in r && r[x] == r[y] ensures Connected(e2, x, y) {
      MergeStep(st, e, e2, a, b, x, y);
    }
  }

  lemma MergeStep(st: Boxes, e: set<Pair>, e2: set<Pair>, a: Pos3, b: Pos3, x: Pos3, y: Pos3)
    requires SharedConnected(st, e) && e <= e2 && Connected(e2, a, b) && Connected(e2, b, a)
    requires a in st.circuits && b in st.circuits && x in st.circuits && y in st.circuits
    requires var c := st.circuits;
      (if c[x] == c[b] then c[a] else c[x]) == (if c[y] == c[b] then c[a] else c[y])
    ensures Connected(e2, x, y)
  {
    var c := st.circuits;
    if c[x] == c[y] {
      ConnectedMono(e, e2, x, y);
    } else if c[x] == c[b] {
      ConnectedMono(e, e2, x, b);
      ConnectedMono(e, e2, a, y);
      ConnectedTrans(e2, x, b, a);
      ConnectedTrans(e2, x, a, y);
    } else {
      ConnectedMono(e, e2, x, a);
      ConnectedMono(e, e2, b, y);
      ConnectedTrans(e2, x, a, b);
      ConnectedTrans(e2, x, b, y);
    }
  }

  /** Joining a new box `b` to `a`'s circuit. */
  lemma CombineJoinConnected(st: Boxes, e: set<Pair>, a: Pos3, b: Pos3)
    requires SharedConnected(st, e) && a in st.circuits && b !in st.circuits
    ensures SharedConnected(Combine(st, a, b), e + {(a, b)})
  {
    var e2 := e + {(a, b)};
    var c, r := st.circuits, Combine(st, a, b).circuits;
    ConnectedEdge(e2, a, b);
    ConnectedSym(e2, a, b);
    forall x, y | x in r && y in r && r[x] == r[y] ensures Connected(e2, x, y) {
      if x == b && y == b {
        ConnectedRefl(e2, b);
      } else if x == b {
        ConnectedMono(e, e2, a, y);
        ConnectedTrans(e2, b, a, y);
      } else if y == b {
        ConnectedMono(e, e2, x, a);
        ConnectedTrans(e2, x, a, b);
      } else {
        ConnectedMono(e, e2, x, y);
      }
    }
  }

  /** Joining a new box `a` to `b`'s circuit. */
  lemma CombineJoinFirstConnected(st: Boxes, e: set<Pair>, a: Pos3, b: Pos3)
    requires SharedConnected(st, e) && a !in st.circuits && b in st.circuits
    ensures SharedConnected(Combine(st, a, b), e + {(a, b)})
  {
    var e2 := e + {(a, b)};
    var c, r := st.circuits, Combine(st, a, b).circuits;
    ConnectedEdge(e2, a, b);
    ConnectedSym(e2, a, b);
    forall x, y | x in r && y in r && r[x] == r[y] ensures Connected(e2, x, y) {
      if x == a && y == a {
        ConnectedRefl(e2, a);
      } else if x == a {
        ConnectedMono(e, e2, b, y);
        ConnectedTrans(e2, a, b, y);
      } else if y == a {
        ConnectedMono(e, e2, x, b);
        ConnectedTrans(e2, x, b, a);
      } else {
        ConnectedMono(e, e2, x, y);
      }
    }
  }

  /** Two new boxes open a circuit of their own. */
  lemma CombineNewConnected(st: Boxes, e: set<Pair>, a: Pos3, b: Pos3)
    requires SharedConnected(st, e) && IdsBelow(st) && a !in st.circuits && b !in st.circuits
    ensures SharedConnected(Combine(st, a, b), e + {(a, b)})
  {
    var e2 := e + {(a, b)};
    var c, r := st.circuits, Combine(st, a, b).circuits;
    ConnectedEdge(e2, a, b);
    ConnectedSym(e2, a, b);
    forall x, y | x in r && y in r && r[x] == r[y] ensures Connected(e2, x, y) {
      if x in c && y in c {
        ConnectedMono(e, e2, x, y);
      } else if x == y {
        ConnectedRefl(e2, x);
      }
    }
  }

  /** `combine` keeps the invariant, with `(a, b)` added to the joined pairs. */
  lemma CombineInv(st: Boxes, e: set<Pair>, a: Pos3, b: Pos3)
    requires Inv(st, e)
    ensures Inv(Combine(st, a, b), e + {(a, b)})
  {
    var c := st.circuits;
    EndpointsAdd(e, a, b);
    CombineShares(st, e, a, b);
    if a in c && b in c {
      if c[a] == c[b] {
        CombineSameConnected(st, e, a, b);
      } else {
        CombineMergeConnected(st, e, a, b);
      }
    } else if a in c {
      CombineJoinConnected(st, e, a, b);
    } else if b in c {
      CombineJoinFirstConnected(st, e, a, b);
    } else {
      CombineNewConnected(st, e, a, b);
    }
  }

  /** A box in a circuit shares its id with every box a chain of joined
      pairs leads to. */
  lemma {:induction false} ChainSharesId(st: Boxes, e: set<Pair>, w: seq<Pos3>, i: nat)
    requires JoinedShare(st, e) && Chain(e, w) && i < |w| && w[0] in st.circuits
    ensures w[i] in st.circuits && st.circuits[w[i]] == st.circuits[w[0]]
  {
    if i > 0 {
      ChainSharesId(st, e, w, i - 1);
      assert Linked(e, w[i - 1], w[i]);
    }
  }

  /** Combining the pairs `ps` in order. */
  function CombineAll(st: Boxes, ps: seq<Pair>): (r: Boxes)
    ensures r.boxes == st.boxes
    decreases |ps|
  {
    if |ps| == 0 then st else CombineAll(Combine(st, ps[0].0, ps[0].1), ps[1..])
  }

  function PairSet(ps: seq<Pair>): set<Pair> {
    set p | p in ps
  }

  lemma PairSetCons(ps: seq<Pair>)
    requires |ps| > 0
    ensures PairSet(ps) == {ps[0]} + PairSet(ps[1..])
  {
    assert ps == [ps[0]] + ps[1..];
  }

  lemma InvEqual(st: Boxes, e: set<Pair>, st2: Boxes, e2: set<Pair>)
    requires Inv(st, e) && st == st2 && e == e2
    ensures Inv(st2, e2)
  {
  }

  lemma {:induction false} CombineAllInv(st: Boxes, e: set<Pair>, ps: seq<Pair>)
    requires Inv(st, e)
    ensures Inv(CombineAll(st, ps), e + PairSet(ps))
    decreases |ps|
  {
    if |ps| > 0 {
      var a, b := ps[0].0, ps[0].1;
      var e1 := e + {(a, b)};
      var rest := PairSet(ps[1..]);
      CombineInv(st, e, a, b);
      CombineAllInv(Combine(st, a, b), e1, ps[1..]);
      PairSetCons(ps);
      InvEqual(CombineAll(Combine(st, a, b), ps[1..]), e1 + rest, CombineAll(st, ps), e + PairSet(ps));
    } else {
      assert PairSet(ps) == {};
      InvEqual(st, e, CombineAll(st, ps), e + PairSet(ps));
    }
  }

  /** After combining the pairs `ps`, the boxes with a circuit are exactly
      the boxes of those pairs, and two of them share a circuit exactly
      when a chain of combined pairs connects them. */
  lemma CircuitsAreComponents(boxes: seq<Pos3>, ps: seq<Pair>, x: Pos3, y: Pos3)
    ensures var c := CombineAll(Parse(boxes), ps).circuits;
      && c.Keys == Endpoints(PairSet(ps))
      && (x in c && y in c ==> (c[x] == c[y] <==> Connected(PairSet(ps), x, y)))
  {
    var st := CombineAll(Parse(boxes), ps);
    var e := PairSet(ps);
    InvEmpty(boxes);
    CombineAllInv(Parse(boxes), {}, ps);
    assert {} + e == e;
    if x in st.circuits && y in st.circuits && Connected(e, x, y) {
      var w :| |w| > 0 && w[0] == x && w[|w| - 1] == y && Chain(e, w);
      ChainSharesId(st, e, w, |w| - 1);
    }
  }

  // ---------------------------------------------------------------------
  // circuits_by_size

  /** Every non-empty set of ids has a least element. */
  lemma {:induction false} Least(s: set<nat>) returns (m: nat)
    requires s != {}
    ensures m in s && forall y :: y in s ==> m <= y
    decreases s
  {
    var x: nat :| x in s;
    var rest := s - {x};
    if rest == {} {
      m := x;
      forall y | y in s ensures x <= y {
        assert y !in rest;
      }
    } else {
      var m' := Least(rest);
      m := if x < m' then x else m';
      forall y | y in s ensures m <= y {
        if y != x {
          assert y in rest;
        }
      }
    }
  }

  lemma MinExists(s: set<nat>)
    requires s != {}
    ensures exists m :: m in s && forall y :: y in s ==> m <= y
  {
    var m := Least(s);
  }

  function MinOf(s: set<nat>): (m: nat)
    requires s != {}
    ensures m in s && forall y :: y in s ==> m <= y
  {
    MinExists(s);
    var m :| m in s && forall y :: y in s ==> m <= y;
    m
  }

  /** The elements of a finite set of ids, smallest first. */
  function Ascending(s: set<nat>): (r: seq<nat>)
    ensures forall x :: x in r <==> x in s
    decreases s
  {
    if s == {} then [] else var m := MinOf(s); [m] + Ascending(s - {m})
  }

  /** The number of boxes in circuit `v`. */
  function Size(c: map<Pos3, nat>, v: nat): nat {
    |set k | k in c.Keys && c[k] == v|
  }

  /** The `(count, id)` tuples of the groups, as keys of a `BTreeSet`. */
  function GroupKeys(c: map<Pos3, nat>): (r: seq<seq<int>>)
    ensures SameLength(r, 2)
    ensures forall k :: k in r <==> exists v :: v in c.Values && k == [Size(c, v), v]
  {
    var ids := Ascending(c.Values);
    var r := KeysOf(c, ids);
    assert forall k :: k in r ==> exists v :: v in c.Values && k == [Size(c, v), v] by {
      KeysOfSound(c, ids);
    }
    assert forall v :: v in c.Values ==> [Size(c, v), v] in r by {
      KeysOfComplete(c, ids);
    }
    r
  }

  /** The `(count, id)` key of each id of `ids`, in order. */
  function KeysOf(c: map<Pos3, nat>, ids: seq<nat>): (r: seq<seq<int>>)
    ensures |r| == |ids| && SameLength(r, 2)
  {
    seq(|ids|, i requires 0 <= i < |ids| => [Size(c, ids[i]), ids[i]])
  }

  lemma KeysOfSound(c: map<Pos3, nat>, ids: seq<nat>)
    ensures forall k :: k in KeysOf(c, ids) ==> exists v :: v in ids && k == [Size(c, v), v]
  {
    var r := KeysOf(c, ids);
    forall k | k in r ensures exists v :: v in ids && k == [Size(c, v), v] {
      var i :| 0 <= i < |r| && r[i] == k;
      assert ids[i] in ids;
    }
  }

  lemma KeysOfComplete(c: map<Pos3, nat>, ids: seq<nat>)
    ensures forall v :: v in ids ==> [Size(c, v), v] in KeysOf(c, ids)
  {
    forall v | v in ids ensures [Size(c, v), v] in KeysOf(c, ids) {
      var i :| 0 <= i < |ids| && ids[i] == v;
      assert KeysOf(c, ids)[i] == [Size(c, v), v];
    }
  }

  /** The circuit ids in the order `circuits_by_size` reports them: the
      `BTreeSet` of `(count, id)` read backwards. */
  function GroupOrder(c: map<Pos3, nat>): (vs: seq<nat>)
    ensures |vs| == |SortUnique(GroupKeys(c), 2)|
  {
    var sorted := SortUnique(GroupKeys(c), 2);
    var m := |sorted|;
    seq(m, i requires 0 <= i < m =>
      assert sorted[m - 1 - i] in GroupKeys(c);
      var v: nat :| v in c.Values && sorted[m - 1 - i] == [Size(c, v), v];
      v)
  }

  /** `circuits_by_size`: the sizes of the circuits, largest first. */
  function CircuitsBySize(c: map<Pos3, nat>): (r: seq<nat>)
    ensures |r| == |GroupOrder(c)|
  {
    var vs := GroupOrder(c);
    seq(|vs|, i requires 0 <= i < |vs| => Size(c, vs[i]))
  }

  lemma GroupOrderEntry(c: map<Pos3, nat>, i: nat)
    requires i < |GroupOrder(c)|
    ensures var sorted := SortUnique(GroupKeys(c), 2);
      && GroupOrder(c)[i] in c.Values
      && sorted[|sorted| - 1 - i] == [Size(c, GroupOrder(c)[i]), GroupOrder(c)[i]]
  {
  }

  /** The order of `(count, id)` tuples. */
  lemma PairOrder(s1: int, v1: int, s2: int, v2: int)
    requires Lt([s1, v1], [s2, v2])
    ensures s1 < s2 || (s1 == s2 && v1 < v2)
  {
    var a, b := [s1, v1], [s2, v2];
    if s1 == s2 {
      assert Lt(a[1..], b[1..]);
      assert a[1..] == [v1] && b[1..] == [v2];
      assert !Lt(a[2..], b[2..]);
    }
  }

  /** `circuits_by_size` lists every circuit once, largest first; among
      circuits of equal size the larger id comes first, as reading the
      `(count, id)` set backwards gives. */
  lemma CircuitsBySizeSpec(c: map<Pos3, nat>)
    ensures var vs := GroupOrder(c); var r := CircuitsBySize(c);
      && (forall i :: 0 <= i < |vs| ==> vs[i] in c.Values && r[i] == Size(c, vs[i]))
      && (forall v :: v in c.Values ==> v in vs)
      && (forall i, j :: 0 <= i < j < |vs| ==>
            Size(c, vs[i]) > Size(c, vs[j]) || (Size(c, vs[i]) == Size(c, vs[j]) && vs[i] > vs[j]))
  {
    var vs := GroupOrder(c);
    var sorted := SortUnique(GroupKeys(c), 2);
    var m := |sorted|;
    forall i | 0 <= i < |vs| ensures vs[i] in c.Values {
      GroupOrderEntry(c, i);
    }
    forall v | v in c.Values ensures v in vs {
      var k := [Size(c, v), v];
      assert k in GroupKeys(c);
      var t :| 0 <= t < m && sorted[t] == k;
      GroupOrderEntry(c, m - 1 - t);
      assert vs[m - 1 - t] == v;
    }
    forall i, j | 0 <= i < j < |vs|
      ensures Size(c, vs[i]) > Size(c, vs[j]) || (Size(c, vs[i]) == Size(c, vs[j]) && vs[i] > vs[j])
    {
      GroupOrderEntry(c, i);
      GroupOrderEntry(c, j);
      var lo, hi := sorted[m - 1 - j], sorted[m - 1 - i];
      assert Lt(lo, hi);
      PairOrder(Size(c, vs[j]), vs[j], Size(c, vs[i]), vs[i]);
    }
  }

  /** The sizes come out in non-increasing order. */
  lemma CircuitsBySizeDescending(c: map<Pos3, nat>, i: nat, j: nat)
    requires i <= j < |CircuitsBySize(c)|
    ensures CircuitsBySize(c)[i] >= CircuitsBySize(c)[j]
  {
    CircuitsBySizeSpec(c);
  }

  // ---------------------------------------------------------------------
  // part_one

  /** How many pairs part one joins, outside the tests. */
  const BOXES: nat := 1000

  function Product(s: seq<nat>): (r: nat)
    ensures |s| == 0 ==> r == 1
    decreases |s|
  {
    if |s| == 0 then 1 else s[0] * Product(s[1..])
  }

  function Take<T>(s: seq<T>, n: nat): (r: seq<T>)
    ensures |r| == Min(n, |s|)
    ensures forall i :: 0 <= i < |r| ==> r[i] == s[i]
  {
    if n <= |s| then s[..n] else s
  }

  /** The circuits after joining the `count` closest pairs. */
  function Joined(boxes: seq<Pos3>, count: nat): Boxes {
    CombineAll(Parse(boxes), OrderedByDistance(boxes, count))
  }

  /** `part_one`, with the number of pairs as a parameter. */
  function PartOneWith(boxes: seq<Pos3>, count: nat): nat {
    Product(Take(CircuitsBySize(Joined(boxes, count).circuits), 3))
  }

  function PartOne(boxes: seq<Pos3>): nat {
    PartOneWith(boxes, BOXES)
  }

  /** The sizes of the first `n` circuits `circuits_by_size` reports. */
  function TopSizes(c: map<Pos3, nat>, n: nat): (r: seq<nat>)
    ensures |r| == Min(n, |GroupOrder(c)|)
  {
    SizesOf(c, Take(GroupOrder(c), n))
  }

  /** The size of each circuit of `vs`, in order. */
  function SizesOf(c: map<Pos3, nat>, vs: seq<nat>): (r: seq<nat>)
    ensures |r| == |vs| && forall i :: 0 <= i < |vs| ==> r[i] == Size(c, vs[i])
  {
    seq(|vs|, i requires 0 <= i < |vs| => Size(c, vs[i]))
  }

  /** The first `n` circuits reported are the largest ones: every other
      circuit is at most as large as each of them. */
  lemma TopSizesAreLargest(c: map<Pos3, nat>, n: nat)
    ensures Take(CircuitsBySize(c), n) == TopSizes(c, n)
    ensures forall v :: v in c.Values ==>
      v in Take(GroupOrder(c), n) || forall i :: 0 <= i < Min(n, |GroupOrder(c)|) ==> Size(c, v) <= TopSizes(c, n)[i]
    ensures |GroupOrder(c)| < n ==> forall v :: v in c.Values ==> v in GroupOrder(c)
  {
    var vs := GroupOrder(c);
    var top := Take(vs, n);
    CircuitsBySizeSpec(c);
    forall v | v in c.Values && v !in top
      ensures forall i :: 0 <= i < |top| ==> Size(c, v) <= TopSizes(c, n)[i]
    {
      var j :| 0 <= j < |vs| && vs[j] == v;
      forall i | 0 <= i < |top| ensures Size(c, v) <= TopSizes(c, n)[i] {
        assert i < j;
      }
    }
  }

  /** Part one multiplies the sizes of the three largest circuits (fewer
      when there are fewer circuits). */
  lemma PartOneSpec(boxes: seq<Pos3>, count: nat)
    ensures var c := Joined(boxes, count).circuits;
      && PartOneWith(boxes, count) == Product(TopSizes(c, 3))
      && (forall v :: v in c.Values ==>
            v in Take(GroupOrder(c), 3) || forall i :: 0 <= i < Min(3, |GroupOrder(c)|) ==> Size(c, v) <= TopSizes(c, 3)[i])
  {
    TopSizesAreLargest(Joined(boxes, count).circuits, 3);
  }

  // ---------------------------------------------------------------------
  // part_two and are_all_combined

  const USIZE_MAX: nat := 0xFFFF_FFFF_FFFF_FFFF

  /** `are_all_combined`: as many boxes have a circuit as there are boxes. */
  predicate AreAllCombined(st: Boxes) {
    |st.circuits| == |st.boxes|
  }

  /** What the loop of part two is evidently after: every box is in one
      and the same circuit. */
  predicate OneCircuit(st: Boxes) {
    && (forall i :: 0 <= i < |st.boxes| ==> st.boxes[i] in st.circuits)
    && (forall i, j :: 0 <= i < |st.boxes| && 0 <= j < |st.boxes| ==>
          st.circuits[st.boxes[i]] == st.circuits[st.boxes[j]])
  }

  /** The stopping test of the part-two loop: as written, or corrected. */
  datatype Stop = AsWritten | Corrected

  predicate Stopped(stop: Stop, st: Boxes) {
    match stop
    case AsWritten => AreAllCombined(st)
    case Corrected => OneCircuit(st)
  }

  /** The part-two loop: join pairs in order and answer the product of the
      x coordinates of the pair after which the test first holds. */
  function Scan(stop: Stop, st: Boxes, ps: seq<Pair>): (r: Option<int>)
    decreases |ps|
  {
    if |ps| == 0 then None
    else
      var st1 := Combine(st, ps[0].0, ps[0].1);
      if Stopped(stop, st1) then Some(ps[0].0.0 * ps[0].1.0) else Scan(stop, st1, ps[1..])
  }

  /** `part_two` as written. */
  function PartTwo(boxes: seq<Pos3>): Option<int> {
    Scan(AsWritten, Parse(boxes), OrderedByDistance(boxes, USIZE_MAX))
  }

  /** `part_two` stopping once all boxes form a single circuit. */
  function PartTwoCorrected(boxes: seq<Pos3>): Option<int> {
    Scan(Corrected, Parse(boxes), OrderedByDistance(boxes, USIZE_MAX))
  }

  lemma CombineAllPrefix(st: Boxes, ps: seq<Pair>, k: nat)
    requires 0 < k <= |ps|
    ensures CombineAll(st, ps[..k]) == CombineAll(Combine(st, ps[0].0, ps[0].1), ps[1..][..k - 1])
  {
    assert ps[..k][0] == ps[0];
    assert ps[..k][1..] == ps[1..][..k - 1];
  }

  /** The test holds after joining the first `i + 1` pairs. */
  predicate StopsAt(stop: Stop, st: Boxes, ps: seq<Pair>, i: nat)
    requires i < |ps|
  {
    Stopped(stop, CombineAll(st, ps[..i + 1]))
  }

  /** `i` is the first such index. */
  predicate FirstStop(stop: Stop, st: Boxes, ps: seq<Pair>, i: nat) {
    i < |ps| && StopsAt(stop, st, ps, i) && forall j: nat :: j < i ==> !StopsAt(stop, st, ps, j)
  }

  lemma StopsAtTail(stop: Stop, st: Boxes, ps: seq<Pair>, i: nat)
    requires 0 < i < |ps|
    ensures StopsAt(stop, st, ps, i) == StopsAt(stop, Combine(st, ps[0].0, ps[0].1), ps[1..], i - 1)
    ensures ps[i] == ps[1..][i - 1]
  {
    CombineAllPrefix(st, ps, i + 1);
  }

  lemma StopsAtHead(stop: Stop, st: Boxes, ps: seq<Pair>)
    requires 0 < |ps|
    ensures StopsAt(stop, st, ps, 0) == Stopped(stop, Combine(st, ps[0].0, ps[0].1))
  {
    CombineAllPrefix(st, ps, 1);
  }

  /** The loop answers `None` exactly when the test never holds. */
  lemma {:induction false} ScanNone(stop: Stop, st: Boxes, ps: seq<Pair>)
    ensures Scan(stop, st, ps) == None <==> forall i: nat :: i < |ps| ==> !StopsAt(stop, st, ps, i)
    decreases |ps|
  {
    if |ps| > 0 {
      var st1 := Combine(st, ps[0].0, ps[0].1);
      StopsAtHead(stop, st, ps);
      if !Stopped(stop, st1) {
        ScanNone(stop, st1, ps[1..]);
        forall i: nat | 0 < i < |ps| ensures StopsAt(stop, st, ps, i) == StopsAt(stop, st1, ps[1..], i - 1) {
          StopsAtTail(stop, st, ps, i);
        }
        if Scan(stop, st, ps) != None {
          var i: nat :| i < |ps[1..]| && StopsAt(stop, st1, ps[1..], i);
          assert StopsAt(stop, st, ps, i + 1);
        }
      }
    }
  }

  /** Otherwise it answers with the pair after which the test first holds. */
  lemma {:induction false} ScanSome(stop: Stop, st: Boxes, ps: seq<Pair>)
    ensures Scan(stop, st, ps).Some? ==>
      exists i: nat :: FirstStop(stop, st, ps, i) && Scan(stop, st, ps).value == ps[i].0.0 * ps[i].1.0
    decreases |ps|
  {
    if |ps| > 0 {
      var st1 := Combine(st, ps[0].0, ps[0].1);
      StopsAtHead(stop, st, ps);
      if Stopped(stop, st1) {
        assert FirstStop(stop, st, ps, 0);
      } else if Scan(stop, st, ps).Some? {
        var tail := ps[1..];
        ScanSome(stop, st1, tail);
        var i: nat :| FirstStop(stop, st1, tail, i) && Scan(stop, st1, tail).value == tail[i].0.0 * tail[i].1.0;
        FirstStopShift(stop, st, ps, i);
      }
    }
  }

  /** When the test fails after the first pair, the first stop of the rest
      is one position further on in the whole list. */
  lemma FirstStopShift(stop: Stop, st: Boxes, ps: seq<Pair>, i: nat)
    requires 0 < |ps| && !Stopped(stop, Combine(st, ps[0].0, ps[0].1))
    requires FirstStop(stop, Combine(st, ps[0].0, ps[0].1), ps[1..], i)
    ensures FirstStop(stop, st, ps, i + 1) && ps[i + 1] == ps[1..][i]
  {
    var st1 := Combine(st, ps[0].0, ps[0].1);
    assert !StopsAt(stop, st, ps, 0) by { StopsAtHead(stop, st, ps); }
    assert StopsAt(stop, st, ps, i + 1) && ps[i + 1] == ps[1..][i] by { StopsAtTail(stop, st, ps, i + 1); }
    forall j: nat | 0 < j < i + 1 ensures !StopsAt(stop, st, ps, j) {
      assert !StopsAt(stop, st1, ps[1..], j - 1);
      StopsAtTail(stop, st, ps, j);
    }
  }

  // ---------------------------------------------------------------------
  // What the two stopping tests mean

  lemma {:induction false} DistinctCard(s: seq<Pos3>)
    requires Distinct(s)
    ensures |Elems(s)| == |s|
    decreases |s|
  {
    if |s| > 0 {
      var rest := s[1..];
      assert Distinct(rest) by {
        forall i, j | 0 <= i < j < |rest| ensures rest[i] != rest[j] {
          assert rest[i] == s[i + 1] && rest[j] == s[j + 1];
        }
      }
      DistinctCard(rest);
      assert s == [s[0]] + rest;
      assert Elems(s) == {s[0]} + Elems(rest);
      assert s[0] !in Elems(rest);
    }
  }

  lemma SubsetSameCard(a: set<Pos3>, b: set<Pos3>)
    requires a <= b && |a| == |b|
    ensures a == b
  {
    assert b == a + (b - a);
    assert |b - a| == 0;
  }

  /** With distinct boxes, and only boxes in circuits, `are_all_combined`
      holds exactly when every box is in some circuit. */
  lemma AreAllCombinedMeaning(st: Boxes)
    requires Distinct(st.boxes) && st.circuits.Keys <= Elems(st.boxes)
    ensures AreAllCombined(st) <==> forall i :: 0 <= i < |st.boxes| ==> st.boxes[i] in st.circuits
  {
    DistinctCard(st.boxes);
    var keys, all := st.circuits.Keys, Elems(st.boxes);
    assert |st.circuits| == |keys|;
    if AreAllCombined(st) {
      SubsetSameCard(keys, all);
      forall i | 0 <= i < |st.boxes| ensures st.boxes[i] in st.circuits {
        assert st.boxes[i] in all;
      }
    }
    if forall i :: 0 <= i < |st.boxes| ==> st.boxes[i] in st.circuits {
      assert all <= keys;
      assert keys == all;
    }
  }

  /** Every box is an end of some pair of `e`, and any two boxes are
      connected through `e`. */
  ghost predicate AllConnected(boxes: seq<Pos3>, e: set<Pair>) {
    && (forall i :: 0 <= i < |boxes| ==> boxes[i] in Endpoints(e))
    && (forall i, j :: 0 <= i < |boxes| && 0 <= j < |boxes| ==> Connected(e, boxes[i], boxes[j]))
  }

  /** After joining pairs, the boxes form a single circuit exactly when
      the joined pairs connect them all. */
  lemma OneCircuitMeaning(boxes: seq<Pos3>, ps: seq<Pair>)
    ensures OneCircuit(CombineAll(Parse(boxes), ps)) <==> AllConnected(boxes, PairSet(ps))
  {
    var c := CombineAll(Parse(boxes), ps).circuits;
    var e := PairSet(ps);
    forall x, y ensures c.Keys == Endpoints(e) && (x in c && y in c ==> (c[x] == c[y] <==> Connected(e, x, y))) {
      CircuitsAreComponents(boxes, ps, x, y);
    }
  }

  /** The first `i + 1` pairs connect all boxes. */
  ghost predicate ConnectedAfter(boxes: seq<Pos3>, ps: seq<Pair>, i: nat)
    requires i < |ps|
  {
    AllConnected(boxes, PairSet(ps[..i + 1]))
  }

  /** Every box is an end of one of the first `i + 1` pairs. */
  predicate JoinedAfter(boxes: seq<Pos3>, ps: seq<Pair>, i: nat)
    requires i < |ps|
  {
    forall k :: 0 <= k < |boxes| ==> boxes[k] in Endpoints(PairSet(ps[..i + 1]))
  }

  /** The corrected part two answers with the closest pair whose joining
      leaves all boxes connected, and `None` when they never all are. */
  lemma PartTwoCorrectedSpec(boxes: seq<Pos3>)
    ensures var ps := OrderedByDistance(boxes, USIZE_MAX); var r := PartTwoCorrected(boxes);
      && (r == None <==> forall i: nat :: i < |ps| ==> !ConnectedAfter(boxes, ps, i))
      && (r.Some? ==> exists i: nat :: (i < |ps| && ConnectedAfter(boxes, ps, i)
            && (forall j: nat :: j < i ==> !ConnectedAfter(boxes, ps, j))
            && r.value == ps[i].0.0 * ps[i].1.0))
  {
    var ps := OrderedByDistance(boxes, USIZE_MAX);
    var st := Parse(boxes);
    forall i: nat | i < |ps| ensures StopsAt(Corrected, st, ps, i) == ConnectedAfter(boxes, ps, i) {
      OneCircuitMeaning(boxes, ps[..i + 1]);
    }
    ScanNone(Corrected, st, ps);
    ScanSome(Corrected, st, ps);
  }

  /** The pairs joined are pairs of boxes. */
  lemma JoinedAreBoxes(boxes: seq<Pos3>, i: nat)
    requires i < |OrderedByDistance(boxes, USIZE_MAX)|
    ensures var ps := OrderedByDistance(boxes, USIZE_MAX);
      CombineAll(Parse(boxes), ps[..i + 1]).circuits.Keys == Endpoints(PairSet(ps[..i + 1])) <= Elems(boxes)
  {
    var ps := OrderedByDistance(boxes, USIZE_MAX);
    var e := PairSet(ps[..i + 1]);
    var p0 := boxes[0];
    CircuitsAreComponents(boxes, ps[..i + 1], p0, p0);
    forall x | x in Endpoints(e) ensures x in Elems(boxes) {
      var p :| p in e && (x == p.0 || x == p.1);
      var k :| 0 <= k <= i && ps[k] == p;
      OrderedEntry(boxes, USIZE_MAX, k);
      CombosMembers(boxes, p);
    }
  }

  /** Part two as written answers with the closest pair after which every
      box is in some circuit, whether or not the circuits are one. */
  lemma PartTwoSpec(boxes: seq<Pos3>)
    requires Distinct(boxes)
    ensures var ps := OrderedByDistance(boxes, USIZE_MAX); var r := PartTwo(boxes);
      && (r == None <==> forall i: nat :: i < |ps| ==> !JoinedAfter(boxes, ps, i))
      && (r.Some? ==> exists i: nat :: (i < |ps| && JoinedAfter(boxes, ps, i)
            && (forall j: nat :: j < i ==> !JoinedAfter(boxes, ps, j))
            && r.value == ps[i].0.0 * ps[i].1.0))
  {
    var ps := OrderedByDistance(boxes, USIZE_MAX);
    var st := Parse(boxes);
    forall i: nat | i < |ps| ensures StopsAt(AsWritten, st, ps, i) == JoinedAfter(boxes, ps, i) {
      JoinedAreBoxes(boxes, i);
      AreAllCombinedMeaning(CombineAll(st, ps[..i + 1]));
    }
    ScanNone(AsWritten, st, ps);
    ScanSome(AsWritten, st, ps);
  }

  // ---------------------------------------------------------------------
  // A four-box input on which the two stopping tests differ

  /** The `i`-th element of a strictly sorted sequence is the `x` that is
      smaller than everything after the first `i` elements. */
  lemma NthSmallest(s: seq<seq<int>>, i: nat, x: seq<int>)
    requires i <= |s| && StrictlySorted(s) && x in s && x !in s[..i]
    requires forall y :: y in s && y !in s[..i] && y != x ==> Lt(x, y)
    ensures i < |s| && s[i] == x
  {
    var k :| 0 <= k < |s| && s[k] == x;
    if k > i {
      assert s[i] !in s[..i] by {
        forall t | 0 <= t < i ensures s[..i][t] != s[i] {
          LtIrreflexive(s[t]);
        }
      }
      LtTransitive(x, s[i], x);
      LtIrreflexive(x);
    }
  }

  lemma LtByFirst(a: seq<int>, b: seq<int>)
    requires |a| > 0 && |b| > 0 && a[0] < b[0]
    ensures Lt(a, b)
  {
  }

  lemma LtBySecond(a: seq<int>, b: seq<int>)
    requires |a| > 1 && |b| > 1 && a[0] == b[0] && a[1] < b[1]
    ensures Lt(a, b)
  {
    assert Lt(a[1..], b[1..]);
  }

  const A: Pos3 := (0, 0, 0)
  const B: Pos3 := (1, 0, 0)
  const C: Pos3 := (10, 0, 0)
  const D: Pos3 := (11, 0, 0)

  function FourBoxes(): seq<Pos3> {
    [A, B, C, D]
  }

  /** The six pairs of the four boxes, closest first. */
  predicate FourPair(p: Pair) {
    p == (A, B) || p == (C, D) || p == (B, C) || p == (A, C) || p == (B, D) || p == (A, D)
  }

  lemma FourBoxesCombos(p: Pair)
    requires p in Combos(FourBoxes())
    ensures FourPair(p)
  {
    CombosMembers(FourBoxes(), p);
  }

  lemma FourBoxesIn(p: Pair)
    requires p == (A, B) || p == (C, D) || p == (B, C)
    ensures Key(p) in SortedKeys(FourBoxes())
  {
    var boxes := FourBoxes();
    CombosMembers(boxes, p);
    if p == (A, B) {
      assert p == (boxes[0], boxes[1]);
    } else if p == (C, D) {
      assert p == (boxes[2], boxes[3]);
    } else {
      assert p == (boxes[1], boxes[2]);
    }
  }

  lemma FourKeys()
    ensures Key((A, B)) == [1, 0, 0, 0, 1, 0, 0]
    ensures Key((C, D)) == [1, 10, 0, 0, 11, 0, 0]
    ensures Key((B, C)) == [81, 1, 0, 0, 10, 0, 0]
    ensures Key((A, C)) == [100, 0, 0, 0, 10, 0, 0]
    ensures Key((B, D)) == [100, 1, 0, 0, 11, 0, 0]
    ensures Key((A, D)) == [121, 0, 0, 0, 11, 0, 0]
  {
  }

  /** Key `x` of the pair `q` is below the keys of the pairs after it. */
  lemma FourKeyBelow(q: Pair, p: Pair)
    requires q == (A, B) || q == (C, D) || q == (B, C)
    requires FourPair(p) && p != q
    requires q == (C, D) ==> p != (A, B)
    requires q == (B, C) ==> p != (A, B) && p != (C, D)
    ensures Lt(Key(q), Key(p))
  {
    FourKeys();
    if q == (A, B) && p == (C, D) {
      LtBySecond(Key(q), Key(p));
    } else {
      LtByFirst(Key(q), Key(p));
    }
  }

  /** What the ordering proof needs of the sorted keys of the four boxes:
      strictly sorted, holding the keys of A-B, C-D and B-C, and holding
      nothing but keys of the six pairs. */
  ghost predicate FourKeysSorted(s: seq<seq<int>>) {
    && StrictlySorted(s)
    && Key((A, B)) in s && Key((C, D)) in s && Key((B, C)) in s
    && forall y :: y in s ==> exists p :: FourPair(p) && y == Key(p)
  }

  lemma FourSortedKeys()
    ensures FourKeysSorted(SortedKeys(FourBoxes()))
  {
    var s := SortedKeys(FourBoxes());
    FourBoxesIn((A, B));
    FourBoxesIn((C, D));
    FourBoxesIn((B, C));
    forall y | y in s ensures exists p :: FourPair(p) && y == Key(p) {
      var p :| p in Combos(FourBoxes()) && y == Key(p);
      FourBoxesCombos(p);
    }
  }

  lemma FourBoxesFirst(s: seq<seq<int>>)
    requires FourKeysSorted(s)
    ensures |s| > 0 && s[0] == Key((A, B))
  {
    forall y | y in s && y !in s[..0] && y != Key((A, B)) ensures Lt(Key((A, B)), y) {
      var p :| FourPair(p) && y == Key(p);
      FourKeyBelow((A, B), p);
    }
    NthSmallest(s, 0, Key((A, B)));
  }

  lemma FourBoxesSecond(s: seq<seq<int>>)
    requires FourKeysSorted(s) && |s| > 0 && s[0] == Key((A, B))
    ensures |s| > 1 && s[1] == Key((C, D))
  {
    assert s[..1] == [Key((A, B))];
    assert Key((C, D)) != Key((A, B)) by { FourKeys(); }
    forall y | y in s && y !in s[..1] && y != Key((C, D)) ensures Lt(Key((C, D)), y) {
      var p :| FourPair(p) && y == Key(p);
      FourKeyBelow((C, D), p);
    }
    NthSmallest(s, 1, Key((C, D)));
  }

  lemma FourBoxesThird(s: seq<seq<int>>)
    requires FourKeysSorted(s) && |s| > 1 && s[0] == Key((A, B)) && s[1] == Key((C, D))
    ensures |s| > 2 && s[2] == Key((B, C))
  {
    assert s[..2] == [Key((A, B)), Key((C, D))];
    assert Key((B, C)) != Key((A, B)) && Key((B, C)) != Key((C, D)) by { FourKeys(); }
    forall y | y in s && y !in s[..2] && y != Key((B, C)) ensures Lt(Key((B, C)), y) {
      var p :| FourPair(p) && y == Key(p);
      FourKeyBelow((B, C), p);
    }
    NthSmallest(s, 2, Key((B, C)));
  }

  /** The three closest pairs are A-B (distance 1), C-D (1, but later in
      the tie-break on coordinates) and B-C (81). */
  lemma FourBoxesOrder()
    ensures var ps := OrderedByDistance(FourBoxes(), USIZE_MAX);
      |ps| >= 3 && ps[0] == (A, B) && ps[1] == (C, D) && ps[2] == (B, C)
  {
    var s := SortedKeys(FourBoxes());
    FourSortedKeys();
    FourBoxesFirst(s);
    FourBoxesSecond(s);
    FourBoxesThird(s);
    var ps := OrderedByDistance(FourBoxes(), USIZE_MAX);
    OrderedEntry(FourBoxes(), USIZE_MAX, 0);
    OrderedEntry(FourBoxes(), USIZE_MAX, 1);
    OrderedEntry(FourBoxes(), USIZE_MAX, 2);
  }

  const FourJoined1: Boxes := Boxes([A, B, C, D], map[A := 0, B := 0], 1)
  const FourJoined2: Boxes := Boxes([A, B, C, D], map[A := 0, B := 0, C := 1, D := 1], 2)
  const FourJoined3: Boxes := Boxes([A, B, C, D], map[A := 0, B := 0, C := 0, D := 0], 2)

  /** Joining A-B, then C-D: two circuits covering all four boxes. */
  lemma FourBoxesFirstJoins()
    ensures Combine(Parse(FourBoxes()), A, B) == FourJoined1
    ensures Combine(FourJoined1, C, D) == FourJoined2
    ensures !AreAllCombined(FourJoined1) && !OneCircuit(FourJoined1)
    ensures AreAllCombined(FourJoined2) && !OneCircuit(FourJoined2)
  {
    assert FourJoined1.boxes[2] !in FourJoined1.circuits;
    assert FourJoined2.circuits[FourJoined2.boxes[0]] != FourJoined2.circuits[FourJoined2.boxes[2]];
  }

  /** Joining B-C then merges them into one. */
  lemma FourBoxesMerge()
    ensures Combine(FourJoined2, B, C) == FourJoined3
    ensures OneCircuit(FourJoined3)
  {
    var r := Combine(FourJoined2, B, C).circuits;
    assert r.Keys == FourJoined3.circuits.Keys;
    assert r[A] == 0 && r[B] == 0 && r[C] == 0 && r[D] == 0;
    assert r == FourJoined3.circuits;
  }

  /** On the four boxes, `are_all_combined` holds once A-B and C-D are
      joined, while A-B and C-D are still two circuits: part two as written
      answers 10 * 11, the corrected loop goes on to B-C and answers 1 * 10. */
  lemma FourBoxesPartTwo()
    ensures PartTwo(FourBoxes()) == Some(110)
    ensures PartTwoCorrected(FourBoxes()) == Some(10)
  {
    FourBoxesOrder();
    FourBoxesFirstJoins();
    FourBoxesMerge();
    var ps := OrderedByDistance(FourBoxes(), USIZE_MAX);
    var ps1 := ps[1..];
    var ps2 := ps1[1..];
    assert ps1[0] == (C, D) && ps2[0] == (B, C);
    assert Scan(AsWritten, FourJoined1, ps1) == Some(110);
    assert Scan(Corrected, FourJoined2, ps2) == Some(10);
    assert Scan(Corrected, FourJoined1, ps1) == Some(10);
  }
}
