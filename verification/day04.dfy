/** Model of src/bin/04.rs: paper rolls on a grid; a roll can be lifted
    when fewer than four of its eight neighbours are rolls, and part two
    keeps lifting until no roll can be. */
module Day04 {
  import opened Seqs

  type Pos = (int, int)

  /** The eight offsets `DELTA x DELTA` minus (0, 0), in the source's
      iteration order (dx outer, dy inner). */
  const Deltas: seq<Pos> := [(-1, -1), (-1, 0), (-1, 1), (0, -1), (0, 1), (1, -1), (1, 0), (1, 1)]

  function Add(p: Pos, d: Pos): Pos { (p.0 + d.0, p.1 + d.1) }

  /** The reference notion of neighbour: a different cell at most one step
      away in each axis. */
  predicate Adjacent(p: Pos, q: Pos) {
    q != p && -1 <= q.0 - p.0 <= 1 && -1 <= q.1 - p.1 <= 1
  }

  /** The offsets reach exactly the adjacent cells. */
  lemma DeltasAreAdjacent(p: Pos, q: Pos)
    ensures Adjacent(p, q) <==> exists i :: 0 <= i < 8 && q == Add(p, Deltas[i])
  {
    if Adjacent(p, q) {
      var d := (q.0 - p.0, q.1 - p.1);
      assert d in Deltas;
      var i :| 0 <= i < 8 && Deltas[i] == d;
      assert q == Add(p, Deltas[i]);
    }
  }

  /** How many of the first k offsets from p land on a roll. */
  function CountUpTo(rolls: set<Pos>, p: Pos, k: nat): (r: nat)
    requires k <= 8
    ensures r <= k
  {
    if k == 0 then 0
    else CountUpTo(rolls, p, k - 1) + (if Add(p, Deltas[k - 1]) in rolls then 1 else 0)
  }

  /** The count the filter in `is_roll_liftable` produces. */
  function NeighbourCount(rolls: set<Pos>, p: Pos): nat {
    CountUpTo(rolls, p, 8)
  }

  /** `is_roll_liftable`: fewer than 4 neighbouring rolls. */
  predicate IsLiftable(rolls: set<Pos>, p: Pos) {
    NeighbourCount(rolls, p) < 4
  }

  function Reached(p: Pos, k: nat): set<Pos>
    requires k <= 8
  {
    set i | 0 <= i < k :: Add(p, Deltas[i])
  }

  lemma {:induction false} CountUpToIsCard(rolls: set<Pos>, p: Pos, k: nat)
    requires k <= 8
    ensures CountUpTo(rolls, p, k) == |Reached(p, k) * rolls|
  {
    if k > 0 {
      assert CountUpTo(rolls, p, k - 1) == |Reached(p, k - 1) * rolls| by { CountUpToIsCard(rolls, p, k - 1); }
      ReachedStep(rolls, p, k);
    }
  }

  /** One more offset adds its cell to the reached rolls when it is a roll. */
  lemma ReachedStep(rolls: set<Pos>, p: Pos, k: nat)
    requires 1 <= k <= 8
    ensures |Reached(p, k) * rolls| ==
      |Reached(p, k - 1) * rolls| + (if Add(p, Deltas[k - 1]) in rolls then 1 else 0)
  {
    var q := Add(p, Deltas[k - 1]);
    var before := Reached(p, k - 1) * rolls;
    ReachedGrows(p, k);
    if q in rolls {
      assert Reached(p, k) * rolls == before + {q};
      assert |before + {q}| == |before| + 1;
    } else {
      assert Reached(p, k) * rolls == before;
    }
  }

  /** The k-th offset reaches a cell the earlier ones do not. */
  lemma ReachedGrows(p: Pos, k: nat)
    requires 1 <= k <= 8
    ensures Reached(p, k) == Reached(p, k - 1) + {Add(p, Deltas[k - 1])}
    ensures Add(p, Deltas[k - 1]) !in Reached(p, k - 1)
  {
    assert Reached(p, k) == Reached(p, k - 1) + {Add(p, Deltas[k - 1])};
  }

  /** The count is the number of adjacent rolls. */
  lemma NeighbourCountIsAdjacentRolls(rolls: set<Pos>, p: Pos)
    ensures NeighbourCount(rolls, p) == |set q | q in rolls && Adjacent(p, q)|
  {
    CountUpToIsCard(rolls, p, 8);
    forall q ensures q in Reached(p, 8) <==> Adjacent(p, q) {
      DeltasAreAdjacent(p, q);
    }
    assert Reached(p, 8) * rolls == set q | q in rolls && Adjacent(p, q);
  }

  /** Fewer rolls never give a higher count. */
  lemma {:induction false} CountMonotone(a: set<Pos>, b: set<Pos>, p: Pos, k: nat)
    requires a <= b && k <= 8
    ensures CountUpTo(a, p, k) <= CountUpTo(b, p, k)
  {
    if k > 0 {
      CountMonotone(a, b, p, k - 1);
    }
  }

  /** Removing rolls keeps a liftable roll liftable. */
  lemma LiftableStays(a: set<Pos>, b: set<Pos>, p: Pos)
    requires a <= b && IsLiftable(b, p)
    ensures IsLiftable(a, p)
  {
    CountMonotone(a, b, p, 8);
  }

  /** Removing a cell that is not adjacent to p leaves p's count alone. */
  lemma {:induction false} CountIgnoresFar(rolls: set<Pos>, x: Pos, p: Pos, k: nat)
    requires k <= 8 && !Adjacent(p, x)
    ensures CountUpTo(rolls - {x}, p, k) == CountUpTo(rolls, p, k)
  {
    if k > 0 {
      CountIgnoresFar(rolls, x, p, k - 1);
      DeltasAreAdjacent(p, Add(p, Deltas[k - 1]));
    }
  }

  /** `liftable`: the rolls that can be lifted. */
  function Liftable(rolls: set<Pos>): (r: set<Pos>)
    ensures forall p :: p in r <==> p in rolls && IsLiftable(rolls, p)
  {
    set p | p in rolls && IsLiftable(rolls, p)
  }

  /** The filter of `liftable_around` over the first k offsets. */
  function AroundUpTo(rolls: set<Pos>, p: Pos, k: nat): (r: seq<Pos>)
    requires k <= 8
    ensures forall j :: 0 <= j < |r| ==> r[j] in rolls && IsLiftable(rolls, r[j])
  {
    if k == 0 then []
    else
      var q := Add(p, Deltas[k - 1]);
      AroundUpTo(rolls, p, k - 1) + (if q in rolls && IsLiftable(rolls, q) then [q] else [])
  }

  /** `liftable_around(pos)`: the adjacent rolls that are liftable, each
      once, in offset order. */
  function LiftableAround(rolls: set<Pos>, p: Pos): seq<Pos> {
    AroundUpTo(rolls, p, 8)
  }

  lemma {:induction false} AroundUpToMembers(rolls: set<Pos>, p: Pos, k: nat, q: Pos)
    requires k <= 8
    ensures q in AroundUpTo(rolls, p, k) <==> q in rolls && IsLiftable(rolls, q) && q in Reached(p, k)
  {
    if k > 0 {
      AroundUpToMembers(rolls, p, k - 1, q);
      assert Reached(p, k) == Reached(p, k - 1) + {Add(p, Deltas[k - 1])};
    }
  }

  /** `liftable_around` yields exactly the adjacent rolls that are liftable. */
  lemma LiftableAroundMembers(rolls: set<Pos>, p: Pos, q: Pos)
    ensures q in LiftableAround(rolls, p) <==> Adjacent(p, q) && q in rolls && IsLiftable(rolls, q)
  {
    AroundUpToMembers(rolls, p, 8, q);
    DeltasAreAdjacent(p, q);
  }

  /** The loop's invariant: the queue holds distinct rolls still present and
      liftable; `seen` is the rolls removed so far plus the queue; every
      liftable roll still present has been seen. */
  ghost predicate Inv(rolls0: set<Pos>, rolls: set<Pos>, queue: seq<Pos>, seen: set<Pos>) {
    && rolls <= rolls0
    && Distinct(queue)
    && Elems(queue) <= rolls
    && (forall j :: 0 <= j < |queue| ==> IsLiftable(rolls, queue[j]))
    && seen == (rolls0 - rolls) + Elems(queue)
    && (forall p :: p in rolls && IsLiftable(rolls, p) ==> p in seen)
  }

  /** Lists the initial liftable rolls, in some order. */
  method ListSet(s: set<Pos>) returns (r: seq<Pos>)
    ensures Distinct(r) && Elems(r) == s
  {
    r := [];
    var rest := s;
    while rest != {}
      invariant Distinct(r) && Elems(r) + rest == s && Elems(r) !! rest
      decreases |rest|
    {
      var x :| x in rest;
      SnocDistinct(r, x);
      r := r + [x];
      rest := rest - {x};
    }
  }

  /** A set of rolls none of which can be lifted. */
  predicate Stable(s: set<Pos>) {
    forall p :: p in s ==> !IsLiftable(s, p)
  }

  /** `part_two`: the worklist loop. It answers `seen.len()`, which is the
      number of rolls removed; it never counts fewer than part one; and the
      rolls left at the end are the largest subset of the input in which no
      roll can be lifted, so the count is determined by the input. */
  method PartTwo(rolls0: set<Pos>) returns (count: nat, remaining: set<Pos>)
    ensures remaining <= rolls0 && count == |rolls0 - remaining|
    ensures count >= |Liftable(rolls0)|
    ensures forall p :: p in remaining ==> !IsLiftable(remaining, p)
    ensures forall s: set<Pos> :: s <= rolls0 && Stable(s) ==> s <= remaining
  {
    var rolls := rolls0;
    var queue := ListSet(Liftable(rolls0));
    var seen := Liftable(rolls0);
    while |queue| > 0
      invariant Inv(rolls0, rolls, queue, seen)
      invariant Liftable(rolls0) <= seen
      invariant forall s: set<Pos> :: s <= rolls0 && Stable(s) ==> s <= rolls
      decreases |rolls|
    {
      ghost var x := queue[0];
      ghost var before := rolls;
      assert x in before && IsLiftable(before, x) by { assert x in Elems(queue); }
      rolls, queue, seen := LiftNext(rolls0, rolls, queue, seen);
      forall s: set<Pos> | s <= rolls0 && Stable(s) ensures s <= rolls {
        if x in s {
          LiftableStays(s, before, x);
        }
      }
    }
    SubsetCard(Liftable(rolls0), seen);
    count, remaining := |seen|, rolls;
  }

  /** One turn of the worklist loop: pop a roll, remove it, and queue the
      liftable rolls around it that were not seen yet. */
  method LiftNext(ghost rolls0: set<Pos>, rolls: set<Pos>, queue: seq<Pos>, seen: set<Pos>)
    returns (rolls': set<Pos>, queue': seq<Pos>, seen': set<Pos>)
    requires |queue| > 0 && Inv(rolls0, rolls, queue, seen)
    ensures Inv(rolls0, rolls', queue', seen')
    ensures seen <= seen' && rolls' == rolls - {queue[0]} && |rolls'| < |rolls|
  {
    var x := queue[0];
    var rest := queue[1..];
    assert queue == [x] + rest;
    assert x in rolls by { assert x in Elems(queue); }
    rolls' := rolls - {x};
    RemovalKeepsQueue(rolls0, rolls, x, rest, seen);
    var around := LiftableAround(rolls', x);
    queue', seen' := Enqueue(rest, seen, around);
    AfterEnqueue(rolls0, rolls', x, rest, seen, queue', seen');
  }

  /** The inner `for pos2 in liftable_around(..)` loop: `seen.insert` lets
      each position into the queue at most once. */
  method Enqueue(queue: seq<Pos>, seen: set<Pos>, around: seq<Pos>) returns (queue': seq<Pos>, seen': set<Pos>)
    requires Distinct(queue) && Elems(queue) <= seen
    ensures Distinct(queue') && Elems(queue') <= seen'
    ensures seen' == seen + Elems(around)
    ensures Elems(queue') == Elems(queue) + (Elems(around) - seen)
    ensures forall j :: 0 <= j < |queue'| ==> queue'[j] in queue || queue'[j] in around
  {
    queue', seen' := queue, seen;
    var k := 0;
    while k < |around|
      invariant 0 <= k <= |around|
      invariant Distinct(queue') && Elems(queue') <= seen'
      invariant seen' == seen + Elems(around[..k])
      invariant Elems(queue') == Elems(queue) + (Elems(around[..k]) - seen)
      invariant forall j :: 0 <= j < |queue'| ==> queue'[j] in queue || queue'[j] in around
    {
      var q := around[k];
      assert around[..k + 1] == around[..k] + [q];
      if q !in seen' {
        queue' := queue' + [q];
        seen' := seen' + {q};
      }
      k := k + 1;
    }
    assert around[..k] == around;
  }

  /** x has just been removed: as Inv, except that liftable rolls adjacent
      to x may not have been seen yet. */
  ghost predicate Removed(rolls0: set<Pos>, rolls: set<Pos>, x: Pos, queue: seq<Pos>, seen: set<Pos>) {
    && x !in rolls
    && rolls <= rolls0
    && Distinct(queue)
    && Elems(queue) <= rolls
    && (forall j :: 0 <= j < |queue| ==> IsLiftable(rolls, queue[j]))
    && seen == (rolls0 - rolls) + Elems(queue)
    && (forall p :: p in rolls && IsLiftable(rolls, p) && !Adjacent(x, p) ==> p in seen)
  }

  /** Popping x and removing it keeps the rest of the queue valid. */
  lemma RemovalKeepsQueue(rolls0: set<Pos>, before: set<Pos>, x: Pos, queue: seq<Pos>, seen: set<Pos>)
    requires Inv(rolls0, before, [x] + queue, seen)
    ensures Removed(rolls0, before - {x}, x, queue, seen)
  {
    var rolls := before - {x};
    assert Elems([x] + queue) == {x} + Elems(queue);
    forall j | 0 <= j < |queue| ensures IsLiftable(rolls, queue[j]) {
      assert ([x] + queue)[j + 1] == queue[j];
      LiftableStays(rolls, before, queue[j]);
    }
    assert x !in Elems(queue) by {
      forall j | 0 <= j < |queue| ensures queue[j] != x {
        assert ([x] + queue)[0] != ([x] + queue)[j + 1];
      }
    }
    assert Distinct(queue) by {
      forall i, j | 0 <= i < j < |queue| ensures queue[i] != queue[j] {
        assert ([x] + queue)[i + 1] != ([x] + queue)[j + 1];
      }
    }
    forall p | p in rolls && IsLiftable(rolls, p) && !Adjacent(x, p) ensures p in seen {
      CountIgnoresFar(before, x, p, 8);
    }
  }

  /** Enqueueing the liftable neighbours of x restores the invariant. */
  lemma AfterEnqueue(rolls0: set<Pos>, rolls: set<Pos>, x: Pos, queue: seq<Pos>, seen: set<Pos>,
                     queue': seq<Pos>, seen': set<Pos>)
    requires Removed(rolls0, rolls, x, queue, seen)
    requires Distinct(queue') && Elems(queue') <= seen'
    requires seen' == seen + Elems(LiftableAround(rolls, x))
    requires Elems(queue') == Elems(queue) + (Elems(LiftableAround(rolls, x)) - seen)
    requires forall j :: 0 <= j < |queue'| ==> queue'[j] in queue || queue'[j] in LiftableAround(rolls, x)
    ensures Inv(rolls0, rolls, queue', seen')
  {
    var around := LiftableAround(rolls, x);
    forall q | q in around ensures q in rolls && IsLiftable(rolls, q) {
      LiftableAroundMembers(rolls, x, q);
    }
    forall p | p in rolls && IsLiftable(rolls, p) ensures p in seen' {
      if Adjacent(x, p) {
        LiftableAroundMembers(rolls, x, p);
      }
    }
  }

  lemma {:induction false} SubsetCard(a: set<Pos>, b: set<Pos>)
    requires a <= b
    ensures |a| <= |b|
    decreases |a|
  {
    if a != {} {
      var x :| x in a;
      SubsetCard(a - {x}, b - {x});
    }
  }

  /** `part_one`: how many rolls can be lifted at the start. */
  function PartOne(rolls: set<Pos>): nat {
    |Liftable(rolls)|
  }
}
