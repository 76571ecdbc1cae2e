/** Model of src/bin/05.rs: inclusive id ranges of fresh ingredients,
    merged into disjoint ranges. */
module Day05 {
  import Lib

  type Range = Lib.Range

  /** One step of the fold in `merge_ranges`: extend the last merged range
      when the next one starts at most one past its end, else push it. */
  function MergeStep(merged: seq<Range>, r: Range): (m: seq<Range>)
    ensures |m| == |merged| || |m| == |merged| + 1
    ensures |m| > 0
  {
    if |merged| > 0 && r.0 <= merged[|merged| - 1].1 + 1 then
      var last := merged[|merged| - 1];
      merged[..|merged| - 1] + [(last.0, Lib.MaxInt(last.1, r.1))]
    else merged + [r]
  }

  /** The fold over the sorted ranges. */
  function MergeFold(merged: seq<Range>, rs: seq<Range>): seq<Range>
    decreases |rs|
  {
    if |rs| == 0 then merged else MergeFold(MergeStep(merged, rs[0]), rs[1..])
  }

  /** `merge_ranges`: a stable sort by start, then the fold. */
  function MergeRanges(ranges: seq<Range>): seq<Range> {
    MergeFold([], Lib.SortByStart(ranges))
  }

  /** Every range has start <= end, as `e - s + 1` in part two needs. */
  predicate WellFormed(rs: seq<Range>) {
    forall k :: 0 <= k < |rs| ==> rs[k].0 <= rs[k].1
  }

  /** What the fold keeps true of the merged prefix, given the ranges still
      to come start no earlier than anything merged. */
  predicate FoldInv(merged: seq<Range>, rest: seq<Range>) {
    && Lib.Separated(merged)
    && WellFormed(merged)
    && (forall j, k :: 0 <= j < |merged| && 0 <= k < |rest| ==> merged[j].0 <= rest[k].0)
  }

  lemma MergeStepKeepsInv(merged: seq<Range>, r: Range, rest: seq<Range>)
    requires FoldInv(merged, [r] + rest) && r.0 <= r.1
    requires forall k :: 0 <= k < |rest| ==> r.0 <= rest[k].0
    ensures FoldInv(MergeStep(merged, r), rest)
  {
    var m := MergeStep(merged, r);
    assert ([r] + rest)[0] == r;
    if |merged| > 0 && r.0 <= merged[|merged| - 1].1 + 1 {
      assert forall k :: 0 <= k < |merged| - 1 ==> m[k] == merged[k];
    } else {
      assert forall k :: 0 <= k < |merged| ==> m[k] == merged[k];
    }
  }

  lemma MergeStepCovers(merged: seq<Range>, r: Range, z: int)
    requires WellFormed(merged) && r.0 <= r.1
    requires |merged| > 0 ==> merged[|merged| - 1].0 <= r.0
    ensures Lib.CoveredIncl(MergeStep(merged, r), z) <==> Lib.CoveredIncl(merged, z) || Lib.InIncl(r, z)
  {
    var m := MergeStep(merged, r);
    var n := |merged|;
    if n > 0 && r.0 <= merged[n - 1].1 + 1 {
      assert forall k :: 0 <= k < n - 1 ==> m[k] == merged[k];
      assert Lib.CoveredIncl(m, z) ==> Lib.CoveredIncl(merged, z) || Lib.InIncl(r, z) by {
        if Lib.CoveredIncl(m, z) {
          var k :| 0 <= k < |m| && Lib.InIncl(m[k], z);
          if k < n - 1 {
            assert Lib.InIncl(merged[k], z);
          } else if !Lib.InIncl(r, z) {
            assert Lib.InIncl(merged[n - 1], z);
          }
        }
      }
      if Lib.CoveredIncl(merged, z) {
        var k :| 0 <= k < n && Lib.InIncl(merged[k], z);
        if k < n - 1 {
          assert Lib.InIncl(m[k], z);
        } else {
          assert Lib.InIncl(m[n - 1], z);
        }
      }
      if Lib.InIncl(r, z) {
        assert Lib.InIncl(m[n - 1], z);
      }
    } else {
      assert forall k :: 0 <= k < n ==> m[k] == merged[k];
      if Lib.CoveredIncl(m, z) {
        var k :| 0 <= k < |m| && Lib.InIncl(m[k], z);
        if k < n {
          assert Lib.InIncl(merged[k], z);
        }
      }
      if Lib.CoveredIncl(merged, z) {
        var k :| 0 <= k < n && Lib.InIncl(merged[k], z);
        assert Lib.InIncl(m[k], z);
      }
      if Lib.InIncl(r, z) {
        assert Lib.InIncl(m[n], z);
      }
    }
  }

  /** Coverage of a non-empty list splits into its head and its tail. */
  lemma CoveredCons(rs: seq<Range>, z: int)
    requires |rs| > 0
    ensures Lib.CoveredIncl(rs, z) <==> Lib.InIncl(rs[0], z) || Lib.CoveredIncl(rs[1..], z)
  {
    if Lib.CoveredIncl(rs[1..], z) {
      var k :| 0 <= k < |rs[1..]| && Lib.InIncl(rs[1..][k], z);
      assert Lib.InIncl(rs[k + 1], z);
    }
    if Lib.CoveredIncl(rs, z) {
      var k :| 0 <= k < |rs| && Lib.InIncl(rs[k], z);
      if k > 0 {
        assert Lib.InIncl(rs[1..][k - 1], z);
      }
    }
  }

  lemma {:induction false} MergeFoldCorrect(merged: seq<Range>, rs: seq<Range>, z: int)
    requires FoldInv(merged, rs) && WellFormed(rs) && Lib.SortedByStart(rs)
    ensures FoldInv(MergeFold(merged, rs), [])
    ensures Lib.CoveredIncl(MergeFold(merged, rs), z) <==> Lib.CoveredIncl(merged, z) || Lib.CoveredIncl(rs, z)
    ensures |MergeFold(merged, rs)| <= |merged| + |rs|
    decreases |rs|
  {
    if |rs| > 0 {
      var r := rs[0];
      assert rs == [r] + rs[1..];
      MergeStepKeepsInv(merged, r, rs[1..]);
      MergeStepCovers(merged, r, z);
      CoveredCons(rs, z);
      MergeFoldCorrect(MergeStep(merged, r), rs[1..], z);
    }
  }

  /** `merge_ranges` yields ranges sorted by start and separated (each next
      start exceeds the previous end + 1), keeps start <= end, is no longer
      than its input, and covers exactly the ids the input covers. */
  lemma MergeRangesCorrect(ranges: seq<Range>, z: int)
    requires WellFormed(ranges)
    ensures Lib.Separated(MergeRanges(ranges)) && WellFormed(MergeRanges(ranges))
    ensures Lib.SortedByStart(MergeRanges(ranges))
    ensures |MergeRanges(ranges)| <= |ranges|
    ensures Lib.CoveredIncl(MergeRanges(ranges), z) <==> Lib.CoveredIncl(ranges, z)
  {
    var sorted := Lib.SortByStart(ranges);
    SortedSame(ranges, z);
    MergeFoldCorrect([], sorted, z);
    SeparatedSorted(MergeRanges(ranges));
    assert |sorted| == |multiset(sorted)| == |multiset(ranges)| == |ranges|;
  }

  /** Sorting keeps the ranges, so it keeps well-formedness and coverage. */
  lemma SortedSame(ranges: seq<Range>, z: int)
    requires WellFormed(ranges)
    ensures WellFormed(Lib.SortByStart(ranges))
    ensures Lib.CoveredIncl(Lib.SortByStart(ranges), z) <==> Lib.CoveredIncl(ranges, z)
  {
    var sorted := Lib.SortByStart(ranges);
    forall k | 0 <= k < |sorted| ensures sorted[k].0 <= sorted[k].1 {
      assert sorted[k] in multiset(ranges);
    }
    PermutedCovered(ranges, sorted, z);
    PermutedCovered(sorted, ranges, z);
  }

  /** Reordering ranges keeps what they cover. */
  lemma PermutedCovered(a: seq<Range>, b: seq<Range>, z: int)
    requires multiset(a) == multiset(b)
    ensures Lib.CoveredIncl(a, z) ==> Lib.CoveredIncl(b, z)
  {
    if Lib.CoveredIncl(a, z) {
      var k :| 0 <= k < |a| && Lib.InIncl(a[k], z);
      assert a[k] in multiset(b);
      var k' :| 0 <= k' < |b| && b[k'] == a[k];
    }
  }

  /** Separated ranges are sorted by start. */
  lemma {:induction false} SeparatedSorted(rs: seq<Range>)
    requires Lib.Separated(rs) && WellFormed(rs)
    ensures Lib.SortedByStart(rs)
    decreases |rs|
  {
    if |rs| > 1 {
      var rest := rs[1..];
      assert forall k :: 0 <= k < |rest| ==> rest[k] == rs[k + 1];
      SeparatedSorted(rest);
      assert rs[0].0 <= rs[1].0;
      assert forall j :: 0 < j < |rs| ==> rs[1].0 <= rs[j].0 by {
        forall j | 1 < j < |rs| ensures rs[1].0 <= rs[j].0 {
          assert rest[0].0 <= rest[j - 1].0;
        }
      }
    }
  }

  /** The ids in one inclusive range. */
  function Ids(r: Range): set<int> {
    set z | r.0 <= z <= r.1 && Lib.InIncl(r, z)
  }

  /** The ids covered by a list of ranges. */
  function AllIds(rs: seq<Range>): (ids: set<int>)
    ensures forall z :: z in ids <==> Lib.CoveredIncl(rs, z)
  {
    if |rs| == 0 then {}
    else
      var ids := Ids(rs[0]) + AllIds(rs[1..]);
      assert forall z :: z in ids <==> Lib.CoveredIncl(rs, z) by {
        forall z ensures z in ids <==> Lib.CoveredIncl(rs, z) {
          CoveredCons(rs, z);
        }
      }
      ids
  }

  lemma {:induction false} IdsCount(r: Range)
    requires r.0 <= r.1 + 1
    ensures |Ids(r)| == r.1 - r.0 + 1
    decreases r.1 - r.0 + 1
  {
    if r.0 <= r.1 {
      IdsCount((r.0, r.1 - 1));
      assert Ids(r) == Ids((r.0, r.1 - 1)) + {r.1};
    } else {
      assert Ids(r) == {};
    }
  }

  /** `part_two`'s sum of `e - s + 1` over the merged ranges. */
  function SizeSum(rs: seq<Range>): int {
    if |rs| == 0 then 0 else rs[0].1 - rs[0].0 + 1 + SizeSum(rs[1..])
  }

  function PartTwo(ranges: seq<Range>): int {
    SizeSum(MergeRanges(ranges))
  }

  /** On separated well-formed ranges the sizes add up to the number of
      distinct ids covered. */
  lemma {:induction false} SizeSumCounts(rs: seq<Range>)
    requires Lib.Separated(rs) && WellFormed(rs)
    ensures SizeSum(rs) == |AllIds(rs)|
    decreases |rs|
  {
    if |rs| > 0 {
      var rest := rs[1..];
      assert Lib.Separated(rest) && WellFormed(rest) by {
        assert forall k :: 0 <= k < |rest| ==> rest[k] == rs[k + 1];
      }
      SizeSumCounts(rest);
      IdsCount(rs[0]);
      SeparatedSorted(rs);
      assert Ids(rs[0]) !! AllIds(rest) by {
        forall z | z in AllIds(rest) ensures z !in Ids(rs[0]) {
          var k :| 0 <= k < |rest| && Lib.InIncl(rest[k], z);
          assert rest[k] == rs[k + 1];
          assert rs[1].0 <= rs[k + 1].0;
        }
      }
    }
  }

  /** `part_two` counts every id that some input range covers, once. */
  lemma PartTwoCountsIds(ranges: seq<Range>)
    requires WellFormed(ranges)
    ensures PartTwo(ranges) == |AllIds(ranges)|
  {
    var merged := MergeRanges(ranges);
    MergeRangesCorrect(ranges, 0);
    SizeSumCounts(merged);
    forall z ensures z in AllIds(merged) <==> z in AllIds(ranges) {
      MergeRangesCorrect(ranges, z);
    }
    assert AllIds(merged) == AllIds(ranges);
  }

  /** `part_one`: the ingredients lying in some inclusive range. */
  function PartOne(ranges: seq<Range>, ingredients: seq<int>): (n: nat)
    ensures n <= |ingredients|
  {
    if |ingredients| == 0 then 0
    else (if Lib.CoveredIncl(ranges, ingredients[0]) then 1 else 0) + PartOne(ranges, ingredients[1..])
  }

  /** Checking against the merged ranges instead gives the same count. */
  lemma {:induction false} PartOneOnMerged(ranges: seq<Range>, ingredients: seq<int>)
    requires WellFormed(ranges)
    ensures PartOne(MergeRanges(ranges), ingredients) == PartOne(ranges, ingredients)
    decreases |ingredients|
  {
    if |ingredients| > 0 {
      MergeRangesCorrect(ranges, ingredients[0]);
      PartOneOnMerged(ranges, ingredients[1..]);
    }
  }
}
