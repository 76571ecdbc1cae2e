/** Model of src/bin/02.rs: numbers whose decimal digits are one block
    written out two or more times, summed over id ranges. */
module Day02 {
  import Digits

  /** `usize::MAX`, the repeat bound `is_valid_any` passes. */
  const USIZE_MAX: nat := 0xFFFF_FFFF_FFFF_FFFF

  function Min(a: nat, b: nat): nat { if a <= b then a else b }

  lemma MulMono(a: nat, b: nat, d: nat)
    requires a <= b
    ensures a * d <= b * d
  {
  }

  /** `(i..repeats).all(..)` from block i on: block i - 1 equals block i,
      blocks being the d-long slices of ds. */
  predicate SameBlocks(ds: seq<nat>, d: nat, i: nat, r: nat)
    requires 1 <= i && d * r == |ds|
    decreases if i < r then r - i else 0
  {
    if i >= r then true
    else
      MulMono(i + 1, r, d);
      ds[(i - 1) * d..i * d] == ds[i * d..(i + 1) * d] && SameBlocks(ds, d, i + 1, r)
  }

  /** Whether `repeats` splits ds into equal blocks: the body of the `any`. */
  predicate Splits(ds: seq<nat>, repeats: nat)
    requires repeats >= 1
  {
    var d := |ds| / repeats;
    |ds| % repeats == 0 && SameBlocks(ds, d, 1, repeats)
  }

  /** `(r..=hi).any(..)`. */
  predicate AnyRepeats(ds: seq<nat>, r: nat, hi: nat)
    requires r >= 2
    decreases if r <= hi then hi - r + 1 else 0
  {
    if r > hi then false else Splits(ds, r) || AnyRepeats(ds, r + 1, hi)
  }

  /** `_is_valid` on a digit sequence. */
  predicate ValidDigits(ds: seq<nat>, maxRepeats: nat) {
    AnyRepeats(ds, 2, Min(maxRepeats, |ds|))
  }

  /** `_is_valid(n, max_repeats)`: on the least-significant-first digits. */
  predicate IsValid(n: nat, maxRepeats: nat) {
    ValidDigits(Digits.Digits(n, 10), maxRepeats)
  }

  /** `is_valid_only2` and `is_valid_any`. */
  predicate IsValidOnly2(n: nat) { IsValid(n, 2) }
  predicate IsValidAny(n: nat) { IsValid(n, USIZE_MAX) }

  /** The reference meaning: ds repeats with period d throughout. */
  predicate Periodic(ds: seq<nat>, d: nat) {
    PeriodicFrom(ds, d, 0)
  }

  /** ds is one block written out `repeats` times, for at least two repeats. */
  predicate IsRepetition(ds: seq<nat>, repeats: nat) {
    2 <= repeats && |ds| % repeats == 0 && Periodic(ds, |ds| / repeats)
  }

  /** ds repeats with period d from offset lo on. */
  predicate PeriodicFrom(ds: seq<nat>, d: nat, lo: nat) {
    forall k :: lo <= k && k + d < |ds| ==> ds[k] == ds[k + d]
  }

  /** Peeling one block off the front of a periodic stretch. */
  lemma PeriodicSplit(ds: seq<nat>, d: nat, lo: nat)
    requires lo + d + d <= |ds|
    ensures PeriodicFrom(ds, d, lo) <==>
      ds[lo..lo + d] == ds[lo + d..lo + d + d] && PeriodicFrom(ds, d, lo + d)
  {
    var hi := lo + d;
    if forall k :: lo <= k < hi ==> ds[k] == ds[k + d] {
      forall t | 0 <= t < d ensures ds[lo..hi][t] == ds[hi..hi + d][t] {
        assert ds[lo + t] == ds[lo + t + d];
      }
    }
    if ds[lo..hi] == ds[hi..hi + d] {
      forall k | lo <= k < hi ensures ds[k] == ds[k + d] {
        assert ds[lo..hi][k - lo] == ds[hi..hi + d][k - lo];
      }
    }
  }

  /** From block i on, the chain of equal neighbouring blocks is the period
      d holding from offset lo = (i - 1) * d on. */
  lemma {:induction false} SameBlocksFrom(ds: seq<nat>, d: nat, i: nat, r: nat, lo: nat)
    requires 1 <= i && 1 <= d && d * r == |ds| && lo == (i - 1) * d
    ensures SameBlocks(ds, d, i, r) <==> PeriodicFrom(ds, d, lo)
    decreases if i < r then r - i else 0
  {
    if i >= r {
      SameBlocksEnd(ds, d, i, r);
    } else {
      SameBlocksUnfold(ds, d, i, r);
      SameBlocksFrom(ds, d, i + 1, r, lo + d);
      PeriodicSplit(ds, d, lo);
    }
  }

  /** Past the last block both sides hold trivially. */
  lemma SameBlocksEnd(ds: seq<nat>, d: nat, i: nat, r: nat)
    requires 1 <= i && 1 <= d && d * r == |ds| && r <= i
    ensures SameBlocks(ds, d, i, r) && PeriodicFrom(ds, d, (i - 1) * d)
  {
    if r >= 1 {
      MulMono(r - 1, i - 1, d);
      assert (r - 1) * d == r * d - d;
    }
  }

  /** One step of the chain: block i - 1 against block i, then the rest. */
  lemma SameBlocksUnfold(ds: seq<nat>, d: nat, i: nat, r: nat)
    requires 1 <= i < r && 1 <= d && d * r == |ds|
    ensures (i - 1) * d + d == i * d == (i + 1 - 1) * d && i * d + d == (i + 1) * d <= |ds|
    ensures SameBlocks(ds, d, i, r) ==
      (ds[(i - 1) * d..i * d] == ds[i * d..i * d + d] && SameBlocks(ds, d, i + 1, r))
  {
    MulMono(i + 1, r, d);
    assert (i - 1) * d + d == i * d;
    assert i * d + d == (i + 1) * d;
  }

  /** The `all` is exactly periodicity. */
  lemma SplitsIsRepetition(ds: seq<nat>, repeats: nat)
    requires repeats >= 2
    ensures Splits(ds, repeats) <==> IsRepetition(ds, repeats)
  {
    var d := |ds| / repeats;
    if |ds| % repeats == 0 {
      assert d * repeats == |ds|;
      if d == 0 {
        assert |ds| == 0;
        assert SameBlocks(ds, d, 1, repeats) by { SameBlocksZero(ds, 1, repeats); }
      } else {
        SameBlocksFrom(ds, d, 1, repeats, 0);
      }
    }
  }

  lemma {:induction false} SameBlocksZero(ds: seq<nat>, i: nat, r: nat)
    requires 1 <= i && |ds| == 0
    ensures SameBlocks(ds, 0, i, r)
    decreases if i < r then r - i else 0
  {
    if i < r {
      SameBlocksZero(ds, i + 1, r);
    }
  }

  /** The `any` finds a repeat count exactly when one in range exists. */
  lemma {:induction false} AnyRepeatsIff(ds: seq<nat>, r: nat, hi: nat)
    requires r >= 2
    ensures AnyRepeats(ds, r, hi) <==> exists q :: r <= q <= hi && IsRepetition(ds, q)
    decreases if r <= hi then hi - r + 1 else 0
  {
    if r <= hi {
      AnyRepeatsIff(ds, r + 1, hi);
      SplitsIsRepetition(ds, r);
      if exists q :: r <= q <= hi && IsRepetition(ds, q) {
        var q :| r <= q <= hi && IsRepetition(ds, q);
        if q != r {
          assert r + 1 <= q <= hi;
        }
      }
    }
  }

  /** `_is_valid(n, k)` holds iff n's digits are one block repeated r times
      for some r with 2 <= r <= min(k, number of digits). */
  lemma IsValidMeaning(n: nat, maxRepeats: nat)
    ensures IsValid(n, maxRepeats) <==>
      var ds := Digits.Digits(n, 10);
      exists r :: 2 <= r <= Min(maxRepeats, |ds|) && IsRepetition(ds, r)
  {
    var ds := Digits.Digits(n, 10);
    var hi := Min(maxRepeats, |ds|);
    assert IsValid(n, maxRepeats) == AnyRepeats(ds, 2, hi);
    AnyRepeatsIff(ds, 2, hi);
  }

  /** Numbers below 10, 0 included, have fewer than two digits and are
      never valid. */
  lemma SingleDigitsInvalid(n: nat, maxRepeats: nat)
    requires n < 10
    ensures !IsValid(n, maxRepeats)
  {
    IsValidMeaning(n, maxRepeats);
    var ds := Digits.Digits(n, 10);
    if n > 0 {
      assert ds == [n] + Digits.Digits(0, 10);
    }
    assert |ds| <= 1;
  }

  function Reverse(ds: seq<nat>): (r: seq<nat>)
    ensures |r| == |ds|
    ensures forall k :: 0 <= k < |ds| ==> r[k] == ds[|ds| - 1 - k]
  {
    seq(|ds|, k requires 0 <= k < |ds| => ds[|ds| - 1 - k])
  }

  lemma PeriodicReverse(ds: seq<nat>, d: nat)
    ensures Periodic(Reverse(ds), d) <==> Periodic(ds, d)
  {
    var rs := Reverse(ds);
    var n := |ds|;
    if Periodic(ds, d) {
      forall k | 0 <= k && k + d < n ensures rs[k] == rs[k + d] {
        assert ds[n - 1 - k - d] == ds[n - 1 - k - d + d];
      }
    }
    if Periodic(rs, d) {
      forall k | 0 <= k && k + d < n ensures ds[k] == ds[k + d] {
        assert rs[n - 1 - k - d] == rs[n - 1 - k - d + d];
      }
    }
  }

  /** Reading the digits most-significant first gives the same verdict. */
  lemma ValidReversed(ds: seq<nat>, maxRepeats: nat)
    ensures ValidDigits(Reverse(ds), maxRepeats) == ValidDigits(ds, maxRepeats)
  {
    var hi := Min(maxRepeats, |ds|);
    AnyRepeatsIff(ds, 2, hi);
    AnyRepeatsIff(Reverse(ds), 2, hi);
    forall q | 2 <= q <= hi ensures IsRepetition(Reverse(ds), q) == IsRepetition(ds, q) {
      PeriodicReverse(ds, |ds| / q);
    }
  }

  /** Allowing more repeats never rejects a number that was valid. */
  lemma ValidMonotone(n: nat, k1: nat, k2: nat)
    requires k1 <= k2
    ensures IsValid(n, k1) ==> IsValid(n, k2)
  {
    IsValidMeaning(n, k1);
    IsValidMeaning(n, k2);
  }

  /** `is_valid_only2(n)` implies `is_valid_any(n)`. */
  lemma Only2ImpliesAny(n: nat)
    ensures IsValidOnly2(n) ==> IsValidAny(n)
  {
    ValidMonotone(n, 2, USIZE_MAX);
  }

  /** The valid numbers of the inclusive range `a..=b`, summed. */
  function SumValid(a: nat, b: nat, maxRepeats: nat): nat
    decreases if a <= b then b - a + 1 else 0
  {
    if a > b then 0 else (if IsValid(a, maxRepeats) then a else 0) + SumValid(a + 1, b, maxRepeats)
  }

  /** `part_one` (maxRepeats 2) and `part_two` (usize::MAX): over every range. */
  function PartSum(ranges: seq<(nat, nat)>, maxRepeats: nat): nat {
    if |ranges| == 0 then 0 else SumValid(ranges[0].0, ranges[0].1, maxRepeats) + PartSum(ranges[1..], maxRepeats)
  }

  lemma {:induction false} SumValidMonotone(a: nat, b: nat, k1: nat, k2: nat)
    requires k1 <= k2
    ensures SumValid(a, b, k1) <= SumValid(a, b, k2)
    decreases if a <= b then b - a + 1 else 0
  {
    if a <= b {
      ValidMonotone(a, k1, k2);
      SumValidMonotone(a + 1, b, k1, k2);
    }
  }

  /** Every number part one adds, part two adds too. */
  lemma {:induction false} PartOneAtMostPartTwo(ranges: seq<(nat, nat)>)
    ensures PartSum(ranges, 2) <= PartSum(ranges, USIZE_MAX)
  {
    if |ranges| > 0 {
      SumValidMonotone(ranges[0].0, ranges[0].1, 2, USIZE_MAX);
      PartOneAtMostPartTwo(ranges[1..]);
    }
  }

  /** A range's sum splits at any point inside it. */
  lemma {:induction false} SumValidSplit(a: nat, m: nat, b: nat, maxRepeats: nat)
    requires a <= m <= b
    ensures SumValid(a, b, maxRepeats) == SumValid(a, m, maxRepeats) + SumValid(m + 1, b, maxRepeats)
    decreases m - a
  {
    if a < m {
      SumValidSplit(a + 1, m, b, maxRepeats);
    }
  }
}
