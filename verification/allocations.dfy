/** Model of src/allocations.rs: the iterator over every way of sharing
    `total` units among `n` slots (compositions of `total` into `n`
    non-negative parts), from [total, 0, ..., 0] to [0, ..., 0, total]. */
module Allocations {
  import opened Seqs
  import opened Wrappers

  /** The iterator's state: the allocation to yield next, and whether the
      enumeration is over. */
  datatype AllocationsIterator = AllocationsIterator(n: nat, total: nat, current: seq<nat>, done: bool)

  function Sum(s: seq<nat>): nat {
    if |s| == 0 then 0 else s[0] + Sum(s[1..])
  }

  function Zeros(k: nat): (r: seq<nat>)
    ensures |r| == k && forall i :: 0 <= i < k ==> r[i] == 0
  {
    seq(k, _ => 0)
  }

  /** Everything in the first slot. */
  function FirstAlloc(n: nat, total: nat): seq<nat>
    requires n >= 1
  {
    [total] + Zeros(n - 1)
  }

  /** Everything in the last slot. */
  function LastAlloc(n: nat, total: nat): seq<nat>
    requires n >= 1
  {
    Zeros(n - 1) + [total]
  }

  /** `new`: `current[0] = total` panics for n == 0, so n >= 1 here and the
      iterator starts out not done. */
  function New(n: nat, total: nat): (it: AllocationsIterator)
    requires n >= 1
    ensures |it.current| == n && Sum(it.current) == total && !it.done
    ensures it.current[0] == total && forall i :: 1 <= i < n ==> it.current[i] == 0
  {
    SumZeros(n - 1);
    AllocationsIterator(n, total, FirstAlloc(n, total), false)
  }

  /** The `for index in 1..n` loop of `increment`, from `index` on: while the
      first slot is empty, sweep slot `index` into it; once it is not, move
      one unit from it into slot `index` and stop. Reaching the end means
      the last allocation has been passed (second component true). */
  function Loop(c: seq<nat>, index: nat): (r: (seq<nat>, bool))
    requires 1 <= index <= |c|
    ensures |r.0| == |c| && Sum(r.0) == Sum(c)
    decreases |c| - index
  {
    if index == |c| then (c, true)
    else if c[0] > 0 then
      SumUpdate(c, 0, c[0] - 1);
      SumUpdate(c[0 := c[0] - 1], index, c[index] + 1);
      (c[0 := c[0] - 1][index := c[index] + 1], false)
    else
      SumUpdate(c, 0, c[0] + c[index]);
      SumUpdate(c[0 := c[0] + c[index]], index, 0);
      Loop(c[0 := c[0] + c[index]][index := 0], index + 1)
  }

  /** `increment`: a no-op once done; otherwise the loop above. */
  function Increment(it: AllocationsIterator): (r: AllocationsIterator)
    requires |it.current| == it.n >= 1
    ensures r.n == it.n && r.total == it.total
    ensures |r.current| == it.n && Sum(r.current) == Sum(it.current)
    ensures it.done ==> r == it
  {
    if it.done then it
    else
      var (c, d) := Loop(it.current, 1);
      AllocationsIterator(it.n, it.total, c, d)
  }

  /** `increment` as the source writes it, with the early return. */
  method IncrementInPlace(it: AllocationsIterator) returns (r: AllocationsIterator)
    requires |it.current| == it.n >= 1
    ensures r == Increment(it)
  {
    if it.done {
      return it;
    }
    var current := it.current;
    var index := 1;
    while index < it.n
      invariant 1 <= index <= it.n == |current|
      invariant Loop(current, index) == Loop(it.current, 1)
    {
      if current[0] > 0 {
        current := current[0 := current[0] - 1];
        current := current[index := current[index] + 1];
        return AllocationsIterator(it.n, it.total, current, false);
      } else {
        var v := current[index];
        current := current[0 := current[0] + v];
        current := current[index := 0];
      }
      index := index + 1;
    }
    return AllocationsIterator(it.n, it.total, current, true);
  }

  /** `next`: the current allocation, then advance; nothing once done. */
  function Next(it: AllocationsIterator): (r: (Option<seq<nat>>, AllocationsIterator))
    requires |it.current| == it.n >= 1
    ensures it.done <==> r.0 == None
    ensures it.done ==> r.1 == it
    ensures r.0.Some? ==> r.0.value == it.current
    ensures |r.1.current| == r.1.n == it.n && Sum(r.1.current) == Sum(it.current)
  {
    if it.done then (None, it) else (Some(it.current), Increment(it))
  }

  /** What at most `fuel` calls of `next` yield. */
  function Collect(it: AllocationsIterator, fuel: nat): seq<seq<nat>>
    requires |it.current| == it.n >= 1
    decreases fuel
  {
    if fuel == 0 then []
    else
      var (v, rest) := Next(it);
      match v
      case None => []
      case Some(c) => [c] + Collect(rest, fuel - 1)
  }

  /** Once done, `next` answers None for ever. */
  lemma DoneStaysDone(it: AllocationsIterator, fuel: nat)
    requires |it.current| == it.n >= 1 && it.done
    ensures Next(it) == (None, it)
    ensures Collect(it, fuel) == []
  {
  }

  // ---------------------------------------------------------------------
  // The reference enumeration

  /** All allocations of `total` to `n` slots, in the order of the source:
      grouped by the last slot ascending, each group ordered the same way
      on the first n-1 slots. */
  function Allocs(n: nat, total: nat): seq<seq<nat>>
    requires n >= 1
    decreases n, 1
  {
    if n == 1 then [[total]] else AllocsFrom(n, total, 0)
  }

  /** The groups whose last slot holds `last`, `last + 1`, ..., `total`. */
  function AllocsFrom(n: nat, total: nat, last: nat): seq<seq<nat>>
    requires n >= 2 && last <= total + 1
    decreases n, 0, total + 1 - last
  {
    if last == total + 1 then []
    else Append(Allocs(n - 1, total - last), last) + AllocsFrom(n, total, last + 1)
  }

  /** Each allocation extended by one more slot holding `v`. */
  function Append(cs: seq<seq<nat>>, v: nat): (r: seq<seq<nat>>)
    ensures |r| == |cs| && forall i :: 0 <= i < |cs| ==> r[i] == cs[i] + [v]
  {
    seq(|cs|, i requires 0 <= i < |cs| => cs[i] + [v])
  }

  // ---------------------------------------------------------------------
  // Sums

  lemma {:induction false} SumAppend(s: seq<nat>, v: nat)
    ensures Sum(s + [v]) == Sum(s) + v
    decreases |s|
  {
    if |s| > 0 {
      assert (s + [v])[1..] == s[1..] + [v];
      SumAppend(s[1..], v);
    }
  }

  lemma {:induction false} SumUpdate(s: seq<nat>, i: nat, v: nat)
    requires i < |s|
    ensures Sum(s[i := v]) + s[i] == Sum(s) + v
    decreases |s|
  {
    if i > 0 {
      assert s[i := v][1..] == s[1..][i - 1 := v];
      SumUpdate(s[1..], i - 1, v);
    }
  }

  lemma {:induction false} SumAtLeast(s: seq<nat>, i: nat)
    requires i < |s|
    ensures s[i] <= Sum(s)
    decreases |s|
  {
    if i > 0 {
      SumAtLeast(s[1..], i - 1);
    }
  }

  lemma {:induction false} SumZeros(k: nat)
    ensures Sum(Zeros(k)) == 0
  {
    if k > 0 {
      assert Zeros(k)[1..] == Zeros(k - 1);
      SumZeros(k - 1);
    }
  }

  // ---------------------------------------------------------------------
  // The reference holds each allocation exactly once

  /** An allocation is listed iff it has n slots summing to `total`. */
  lemma {:induction false} AllocsMembers(n: nat, total: nat, c: seq<nat>)
    requires n >= 1
    ensures c in Allocs(n, total) <==> |c| == n && Sum(c) == total
    decreases n, 1
  {
    if n == 1 {
      if |c| == 1 { assert c == [c[0]]; assert c[1..] == []; }
    } else {
      AllocsFromMembers(n, total, 0, c);
    }
  }

  lemma {:induction false} AllocsFromMembers(n: nat, total: nat, last: nat, c: seq<nat>)
    requires n >= 2 && last <= total + 1
    ensures c in AllocsFrom(n, total, last) <==> |c| == n && Sum(c) == total && c[n - 1] >= last
    decreases n, 0, total + 1 - last
  {
    if last > total {
      if |c| == n { SumAtLeast(c, n - 1); }
    } else {
      var block := Append(Allocs(n - 1, total - last), last);
      AllocsFromMembers(n, total, last + 1, c);
      if |c| == n {
        var p := c[..n - 1];
        assert c == p + [c[n - 1]];
        SumAppend(p, c[n - 1]);
        AllocsMembers(n - 1, total - last, p);
        if c in block {
          var i :| 0 <= i < |block| && block[i] == c;
          assert block[i] == Allocs(n - 1, total - last)[i] + [last];
          assert Allocs(n - 1, total - last)[i] == p;
        }
        if Sum(c) == total && c[n - 1] == last {
          assert p in Allocs(n - 1, total - last);
          var i :| 0 <= i < |Allocs(n - 1, total - last)| && Allocs(n - 1, total - last)[i] == p;
          assert block[i] == c;
        }
      } else {
        forall i | 0 <= i < |block| ensures block[i] != c {
          AllocsMembers(n - 1, total - last, Allocs(n - 1, total - last)[i]);
        }
      }
    }
  }

  lemma DistinctConcat<T>(a: seq<T>, b: seq<T>)
    requires Distinct(a) && Distinct(b)
    requires forall x :: x in a ==> x !in b
    ensures Distinct(a + b)
  {
    forall i, j | 0 <= i < j < |a + b| ensures (a + b)[i] != (a + b)[j] {
      if i < |a| && j >= |a| {
        assert (a + b)[i] in a && (a + b)[j] == b[j - |a|];
      }
    }
  }

  /** No allocation is listed twice. */
  lemma {:induction false} AllocsDistinct(n: nat, total: nat)
    requires n >= 1
    ensures Distinct(Allocs(n, total))
    decreases n, 1
  {
    if n > 1 {
      AllocsFromDistinct(n, total, 0);
    }
  }

  lemma {:induction false} AllocsFromDistinct(n: nat, total: nat, last: nat)
    requires n >= 2 && last <= total + 1
    ensures Distinct(AllocsFrom(n, total, last))
    decreases n, 0, total + 1 - last
  {
    if last <= total {
      var inner := Allocs(n - 1, total - last);
      var block := Append(inner, last);
      AllocsDistinct(n - 1, total - last);
      AllocsFromDistinct(n, total, last + 1);
      forall i, j | 0 <= i < j < |block| ensures block[i] != block[j] {
        AllocsMembers(n - 1, total - last, inner[i]);
        AllocsMembers(n - 1, total - last, inner[j]);
        assert block[i][..n - 1] == inner[i];
        assert block[j][..n - 1] == inner[j];
      }
      forall x | x in block ensures x !in AllocsFrom(n, total, last + 1) {
        var i :| 0 <= i < |block| && block[i] == x;
        AllocsMembers(n - 1, total - last, inner[i]);
        AllocsFromMembers(n, total, last + 1, x);
      }
      DistinctConcat(block, AllocsFrom(n, total, last + 1));
    }
  }

  // ---------------------------------------------------------------------
  // The iterator walks the reference list

  /** One `increment` moves allocation c to d without finishing. */
  predicate Steps(c: seq<nat>, d: seq<nat>) {
    |c| >= 1 && Loop(c, 1) == (d, false)
  }

  /** One `increment` of c finishes the enumeration. */
  predicate Ends(c: seq<nat>) {
    |c| >= 1 && Loop(c, 1).1
  }

  /** Each listed allocation steps to the next one. */
  predicate Linked(cs: seq<seq<nat>>) {
    forall i :: 0 <= i < |cs| - 1 ==> Steps(cs[i], cs[i + 1])
  }

  /** An extra last slot is carried along untouched while the loop works on
      the slots before it. */
  lemma {:induction false} LoopExtends(p: seq<nat>, v: nat, index: nat)
    requires 1 <= index <= |p|
    ensures !Loop(p, index).1 ==> Loop(p + [v], index) == (Loop(p, index).0 + [v], false)
    ensures Loop(p, index).1 ==> Loop(p + [v], index) == Loop(Loop(p, index).0 + [v], |p|)
    decreases |p| - index
  {
    if index < |p| {
      var c := p + [v];
      if p[0] > 0 {
        assert c[0 := c[0] - 1][index := c[index] + 1] == p[0 := p[0] - 1][index := p[index] + 1] + [v];
      } else {
        assert c[0 := c[0] + c[index]][index := 0] == p[0 := p[0] + p[index]][index := 0] + [v];
        LoopExtends(p[0 := p[0] + p[index]][index := 0], v, index + 1);
      }
    }
  }

  lemma LinkedAppend(cs: seq<seq<nat>>, v: nat)
    requires Linked(cs)
    ensures Linked(Append(cs, v))
  {
    forall i | 0 <= i < |cs| - 1 ensures Steps(cs[i] + [v], cs[i + 1] + [v]) {
      assert Steps(cs[i], cs[i + 1]);
      LoopExtends(cs[i], v, 1);
    }
  }

  lemma LinkedConcat(a: seq<seq<nat>>, b: seq<seq<nat>>)
    requires Linked(a) && Linked(b)
    requires |a| > 0 && |b| > 0 ==> Steps(a[|a| - 1], b[0])
    ensures Linked(a + b)
  {
    forall i | 0 <= i < |a + b| - 1 ensures Steps((a + b)[i], (a + b)[i + 1]) {
      if i < |a| - 1 {
        assert Steps(a[i], a[i + 1]);
      } else if i >= |a| {
        assert Steps(b[i - |a|], b[i - |a| + 1]);
      }
    }
  }

  /** From the last allocation of n slots the sweep gathers everything into
      the first slot and runs off the end. */
  lemma {:induction false} LoopOverLast(n: nat, total: nat, index: nat)
    requires n >= 2 && 1 <= index <= n - 1
    ensures Loop(LastAlloc(n, total), index) == (FirstAlloc(n, total), true)
    decreases n - index
  {
    var c := LastAlloc(n, total);
    if index < n - 1 {
      assert c[0 := c[0] + c[index]][index := 0] == c;
      LoopOverLast(n, total, index + 1);
    } else {
      assert c[0 := c[0] + c[index]][index := 0] == FirstAlloc(n, total);
    }
  }

  /** Passing from the last allocation with `last` in the final slot to the
      first with `last + 1` there, or finishing when nothing is left. */
  lemma GroupBoundary(n: nat, total: nat, last: nat)
    requires n >= 2 && last <= total
    ensures last < total ==> Steps(LastAlloc(n - 1, total - last) + [last], FirstAlloc(n - 1, total - last - 1) + [last + 1])
    ensures last == total ==> Ends(LastAlloc(n - 1, total - last) + [last])
  {
    var p := LastAlloc(n - 1, total - last);
    LoopExtends(p, last, 1);
    var q := FirstAlloc(n - 1, total - last);
    if n - 1 >= 2 {
      LoopOverLast(n - 1, total - last, 1);
    } else {
      assert p == q;
    }
    var c := q + [last];
    assert Loop(p + [last], 1) == Loop(c, n - 1);
    if last < total {
      assert c[0 := c[0] - 1][n - 1 := c[n - 1] + 1] == FirstAlloc(n - 1, total - last - 1) + [last + 1];
    } else {
      assert Loop(c[0 := c[0] + c[n - 1]][n - 1 := 0], n).1;
    }
  }

  /** The reference list starts at the first allocation, ends at the last,
      each entry steps to the next, and the last one finishes. */
  lemma {:induction false} AllocsLinked(n: nat, total: nat)
    requires n >= 1
    ensures |Allocs(n, total)| > 0
    ensures Allocs(n, total)[0] == FirstAlloc(n, total)
    ensures Allocs(n, total)[|Allocs(n, total)| - 1] == LastAlloc(n, total)
    ensures Linked(Allocs(n, total))
    ensures Ends(LastAlloc(n, total))
    decreases n, 1
  {
    if n == 1 {
      assert Loop([total], 1) == ([total], true);
    } else {
      AllocsFromLinked(n, total, 0);
    }
  }

  lemma {:induction false} AllocsFromLinked(n: nat, total: nat, last: nat)
    requires n >= 2 && last <= total
    ensures |AllocsFrom(n, total, last)| > 0
    ensures AllocsFrom(n, total, last)[0] == FirstAlloc(n - 1, total - last) + [last]
    ensures AllocsFrom(n, total, last)[|AllocsFrom(n, total, last)| - 1] == LastAlloc(n, total)
    ensures Linked(AllocsFrom(n, total, last))
    ensures Ends(LastAlloc(n, total))
    decreases n, 0, total - last
  {
    var inner := Allocs(n - 1, total - last);
    var block := Append(inner, last);
    AllocsLinked(n - 1, total - last);
    LinkedAppend(inner, last);
    GroupBoundary(n, total, last);
    assert block[|block| - 1] == LastAlloc(n - 1, total - last) + [last];
    if last == total {
      assert AllocsFrom(n, total, last + 1) == [];
      assert AllocsFrom(n, total, last) == block;
      assert LastAlloc(n - 1, total - last) + [last] == LastAlloc(n, total);
    } else {
      var rest := AllocsFrom(n, total, last + 1);
      AllocsFromLinked(n, total, last + 1);
      LinkedConcat(block, rest);
      assert AllocsFrom(n, total, last) == block + rest;
    }
  }

  lemma {:induction false} CollectLinked(cs: seq<seq<nat>>, it: AllocationsIterator, fuel: nat)
    requires |cs| > 0 && Linked(cs) && Ends(cs[|cs| - 1])
    requires |it.current| == it.n >= 1 && !it.done && it.current == cs[0]
    requires fuel >= |cs|
    ensures Collect(it, fuel) == cs
    decreases |cs|
  {
    var (v, rest) := Next(it);
    if |cs| == 1 {
      assert rest.done;
      DoneStaysDone(rest, fuel - 1);
    } else {
      assert Steps(cs[0], cs[1]);
      assert Linked(cs[1..]) by {
        forall i | 0 <= i < |cs[1..]| - 1 ensures Steps(cs[1..][i], cs[1..][i + 1]) {
          assert Steps(cs[i + 1], cs[i + 2]);
        }
      }
      CollectLinked(cs[1..], rest, fuel - 1);
    }
  }

  /** `allocations(n, total)` yields every allocation of `total` to `n`
      slots exactly once, in the reference order, and then stops. */
  lemma EnumeratesAll(n: nat, total: nat, fuel: nat)
    requires n >= 1 && fuel >= |Allocs(n, total)|
    ensures Collect(New(n, total), fuel) == Allocs(n, total)
    ensures Distinct(Collect(New(n, total), fuel))
    ensures forall c :: c in Collect(New(n, total), fuel) <==> |c| == n && Sum(c) == total
  {
    AllocsLinked(n, total);
    CollectLinked(Allocs(n, total), New(n, total), fuel);
    AllocsDistinct(n, total);
    forall c ensures c in Allocs(n, total) <==> |c| == n && Sum(c) == total {
      AllocsMembers(n, total, c);
    }
  }
}
