/** Model of src/bin/03.rs: switching on a fixed number of batteries in a
    bank of digits so that, read in order, they form the largest number.

    The source cuts the bank after every pick (`bank = &bank[(i + 1)..]`);
    here the cut is kept as an offset `from` into the original bank, so
    positions are absolute. */
module Day03 {

  /** The position of a largest element of the window `s[lo..hi]` (its value
      is what `max()` returns). */
  function MaxAt(s: seq<nat>, lo: nat, hi: nat): (m: nat)
    requires lo < hi <= |s|
    ensures lo <= m < hi
    decreases hi - lo
  {
    if lo + 1 == hi then lo
    else
      var m := MaxAt(s, lo + 1, hi);
      if s[lo] >= s[m] then lo else m
  }

  /** No element of the window exceeds the one MaxAt finds. */
  lemma {:induction false} MaxAtIsMax(s: seq<nat>, lo: nat, hi: nat, j: nat)
    requires lo <= j < hi <= |s|
    ensures s[j] <= s[MaxAt(s, lo, hi)]
    decreases hi - lo
  {
    if lo + 1 < hi && j > lo {
      MaxAtIsMax(s, lo + 1, hi, j);
    }
  }

  /** `position(|x| x == d)` on the bank cut at `lo`, as an absolute index,
      given that x occurs at k: the first index from lo on holding x. */
  function FirstIndex(s: seq<nat>, x: nat, lo: nat, k: nat): (r: nat)
    requires lo <= k < |s| && s[k] == x
    ensures lo <= r <= k && s[r] == x
    decreases k - lo
  {
    if s[lo] == x then lo else FirstIndex(s, x, lo + 1, k)
  }

  /** Nothing between lo and FirstIndex's answer holds x. */
  lemma {:induction false} FirstIndexIsFirst(s: seq<nat>, x: nat, lo: nat, k: nat, j: nat)
    requires lo <= k < |s| && s[k] == x && lo <= j < FirstIndex(s, x, lo, k)
    ensures s[j] != x
    decreases k - lo
  {
    if s[lo] != x && j > lo {
      FirstIndexIsFirst(s, x, lo + 1, k, j);
    }
  }

  /** One step with `left` digits still to pick from the bank cut at `from`:
      the largest digit `d` of the window `bank[0..len + i + 1 - turn_on]`,
      which leaves `left - 1` digits after it, and `p`, the first position
      of `d` from the cut on. */
  function Step(bank: seq<nat>, from: nat, left: nat): (r: (nat, nat))
    requires 1 <= left && from + left <= |bank|
    ensures from <= r.1 < |bank| - left + 1
  {
    var m := MaxAt(bank, from, |bank| - left + 1);
    (bank[m], FirstIndex(bank, bank[m], from, m))
  }

  /** The step's digit sits at the step's position. */
  lemma StepAt(bank: seq<nat>, from: nat, left: nat)
    requires 1 <= left && from + left <= |bank|
    ensures bank[Step(bank, from, left).1] == Step(bank, from, left).0
  {
  }

  /** No digit of the window exceeds the step's digit. */
  lemma StepMax(bank: seq<nat>, from: nat, left: nat, j: nat)
    requires 1 <= left && from + left <= |bank| && from <= j < |bank| - left + 1
    ensures bank[j] <= Step(bank, from, left).0
  {
    MaxAtIsMax(bank, from, |bank| - left + 1, j);
  }

  /** The step's position is the first one from the cut holding its digit. */
  lemma StepFirst(bank: seq<nat>, from: nat, left: nat, j: nat)
    requires 1 <= left && from + left <= |bank| && from <= j < Step(bank, from, left).1
    ensures bank[j] != Step(bank, from, left).0
  {
    var m := MaxAt(bank, from, |bank| - left + 1);
    FirstIndexIsFirst(bank, bank[m], from, m, j);
  }

  /** The fold of `joltage` at step i of `turn_on`, with `left = turn_on - i`
      digits still to pick, the digits read so far in `num`, and the bank
      cut at `from`. */
  function JoltageFrom(bank: seq<nat>, from: nat, left: nat, num: nat): nat
    requires from + left <= |bank|
    decreases left
  {
    if left == 0 then num
    else
      var st := Step(bank, from, left);
      JoltageFrom(bank, st.1 + 1, left - 1, num * 10 + st.0)
  }

  /** `joltage(bank, turn_on)`; the source slices out of bounds unless the
      bank holds at least `turn_on` digits. */
  function Joltage(bank: seq<nat>, turnOn: nat): nat
    requires turnOn <= |bank|
  {
    JoltageFrom(bank, 0, turnOn, 0)
  }

  /** The positions the greedy choice picks, `left` of them. */
  function Picks(bank: seq<nat>, from: nat, left: nat): (r: seq<nat>)
    requires from + left <= |bank|
    ensures |r| == left
    ensures Indices(r, from, |bank|)
    decreases left
  {
    if left == 0 then []
    else
      var p := Step(bank, from, left).1;
      [p] + Picks(bank, p + 1, left - 1)
  }

  /** Strictly increasing indices in [lo, n). */
  predicate Indices(idx: seq<nat>, lo: nat, n: nat) {
    && (forall j :: 0 <= j < |idx| ==> lo <= idx[j] < n)
    && (forall j, k :: 0 <= j < k < |idx| ==> idx[j] < idx[k])
  }

  /** The digits at the given indices, in order. */
  function Select(bank: seq<nat>, idx: seq<nat>): (r: seq<nat>)
    requires forall j :: 0 <= j < |idx| ==> idx[j] < |bank|
    ensures |r| == |idx|
    ensures forall j :: 0 <= j < |idx| ==> r[j] == bank[idx[j]]
  {
    seq(|idx|, j requires 0 <= j < |idx| => bank[idx[j]])
  }

  /** The fold `num * 10 + d`, reading digits most significant first. */
  function ValueFrom(num: nat, s: seq<nat>): nat
    decreases |s|
  {
    if |s| == 0 then num else ValueFrom(num * 10 + s[0], s[1..])
  }

  function Value(s: seq<nat>): nat { ValueFrom(0, s) }

  function Pow10(k: nat): (r: nat)
    ensures r >= 1
  {
    if k == 0 then 1 else 10 * Pow10(k - 1)
  }

  predicate Decimal(s: seq<nat>) {
    forall j :: 0 <= j < |s| ==> s[j] < 10
  }

  lemma {:induction false} ValueFromShift(num: nat, s: seq<nat>)
    ensures ValueFrom(num, s) == num * Pow10(|s|) + Value(s)
    decreases |s|
  {
    if |s| > 0 {
      ValueFromShift(num * 10 + s[0], s[1..]);
      ValueFromShift(s[0], s[1..]);
    }
  }

  /** The leading digit carries weight 10^(len-1). */
  lemma ValueHead(s: seq<nat>)
    requires |s| > 0
    ensures Value(s) == s[0] * Pow10(|s| - 1) + Value(s[1..])
  {
    ValueFromShift(s[0], s[1..]);
  }

  /** A decimal digit sequence stays below 10^len. */
  lemma {:induction false} ValueBound(s: seq<nat>)
    requires Decimal(s)
    ensures Value(s) < Pow10(|s|)
    decreases |s|
  {
    if |s| > 0 {
      ValueHead(s);
      ValueBound(s[1..]);
      MulLe(s[0], 9, Pow10(|s| - 1));
    }
  }

  lemma MulLe(a: nat, b: nat, c: nat)
    requires a <= b
    ensures a * c <= b * c
  {
  }

  /** The picked digits: the step's digit, then the picks after it. */
  lemma PicksHead(bank: seq<nat>, from: nat, left: nat)
    requires 1 <= left && from + left <= |bank|
    ensures var s := Select(bank, Picks(bank, from, left));
      s == [Step(bank, from, left).0] + Select(bank, Picks(bank, Step(bank, from, left).1 + 1, left - 1))
  {
    StepAt(bank, from, left);
  }

  /** The source's fold computes the value of the greedy pick. */
  lemma {:induction false} JoltageFromPicks(bank: seq<nat>, from: nat, left: nat, num: nat)
    requires from + left <= |bank|
    ensures JoltageFrom(bank, from, left, num) == ValueFrom(num, Select(bank, Picks(bank, from, left)))
    decreases left
  {
    if left > 0 {
      var d, p := Step(bank, from, left).0, Step(bank, from, left).1;
      JoltageFromPicks(bank, p + 1, left - 1, num * 10 + d);
      PicksHead(bank, from, left);
      var rest := Select(bank, Picks(bank, p + 1, left - 1));
      assert ([d] + rest)[1..] == rest;
    }
  }

  /** `joltage` reads `turn_on` digits of the bank, taken in order. */
  lemma JoltageIsSubsequence(bank: seq<nat>, turnOn: nat)
    requires turnOn <= |bank|
    ensures var idx := Picks(bank, 0, turnOn);
      |idx| == turnOn && Indices(idx, 0, |bank|) && Joltage(bank, turnOn) == Value(Select(bank, idx))
  {
    JoltageFromPicks(bank, 0, turnOn, 0);
  }

  /** k increasing indices below n start no later than n - k. */
  lemma {:induction false} FirstIndexRoom(idx: seq<nat>, lo: nat, n: nat)
    requires |idx| > 0 && Indices(idx, lo, n)
    ensures idx[0] + |idx| <= n
    decreases |idx|
  {
    if |idx| > 1 {
      FirstIndexRoom(idx[1..], lo, n);
    }
  }

  /** Greedy optimality: no other choice of `left` digits from the cut on,
      kept in order, reads as a larger number. */
  lemma {:induction false} PicksAreLargest(bank: seq<nat>, from: nat, left: nat, idx: seq<nat>)
    requires Decimal(bank) && from + left <= |bank|
    requires |idx| == left && Indices(idx, from, |bank|)
    ensures Value(Select(bank, idx)) <= Value(Select(bank, Picks(bank, from, left)))
    decreases left
  {
    if left > 0 {
      var p := Step(bank, from, left).1;
      if p <= idx[0] {
        assert Indices(idx[1..], p + 1, |bank|);
        PicksAreLargest(bank, p + 1, left - 1, idx[1..]);
      }
      PicksStep(bank, from, left, idx);
    }
  }

  /** The inductive step of the optimality proof: a choice whose first digit
      is below the step's digit loses outright, and one that matches it can
      only start at or after the step's position, where the rest of the
      greedy choice is at least as good. */
  lemma PicksStep(bank: seq<nat>, from: nat, left: nat, idx: seq<nat>)
    requires Decimal(bank) && 1 <= left && from + left <= |bank|
    requires |idx| == left && Indices(idx, from, |bank|)
    requires var p := Step(bank, from, left).1;
      p <= idx[0] ==>
        Value(Select(bank, idx[1..])) <= Value(Select(bank, Picks(bank, p + 1, left - 1)))
    ensures Value(Select(bank, idx)) <= Value(Select(bank, Picks(bank, from, left)))
  {
    var d, p := Step(bank, from, left).0, Step(bank, from, left).1;
    var s := Select(bank, idx);
    var best := Select(bank, Picks(bank, from, left));
    assert best[0] == d by { StepAt(bank, from, left); }
    assert s[0] <= d by {
      FirstIndexRoom(idx, from, |bank|);
      StepMax(bank, from, left, idx[0]);
    }
    if s[0] < d {
      assert Value(s[1..]) < Pow10(|s| - 1) by {
        assert Decimal(s[1..]);
        ValueBound(s[1..]);
      }
    } else {
      assert p <= idx[0] by {
        if idx[0] < p {
          StepFirst(bank, from, left, idx[0]);
        }
      }
      assert Value(s[1..]) <= Value(best[1..]) by {
        var rest := Picks(bank, p + 1, left - 1);
        assert Picks(bank, from, left) == [p] + rest;
        assert s[1..] == Select(bank, idx[1..]);
        assert best[1..] == Select(bank, rest);
      }
    }
    HeadOrder(s, best);
  }

  /** Equal-length digit sequences compare by their first digit, then by
      the rest. */
  lemma HeadOrder(s: seq<nat>, t: seq<nat>)
    requires |s| == |t| > 0 && s[0] <= t[0]
    requires s[0] < t[0] ==> Value(s[1..]) < Pow10(|s| - 1)
    requires s[0] == t[0] ==> Value(s[1..]) <= Value(t[1..])
    ensures Value(s) <= Value(t)
  {
    ValueHead(s);
    ValueHead(t);
    LeadingDigitOrder(s[0], Value(s[1..]), t[0], Value(t[1..]), Pow10(|s| - 1));
  }

  /** Numbers of the same length compare by their leading digit first. */
  lemma LeadingDigitOrder(a: nat, x: nat, b: nat, y: nat, pow: nat)
    requires a <= b
    requires a < b ==> x < pow
    requires a == b ==> x <= y
    ensures a * pow + x <= b * pow + y
  {
    if a < b {
      MulLe(a + 1, b, pow);
    }
  }

  /** `joltage` is the largest number that `turn_on` digits of the bank,
      kept in order, can read as; it has at most `turn_on` digits. */
  lemma JoltageIsLargest(bank: seq<nat>, turnOn: nat, idx: seq<nat>)
    requires Decimal(bank) && turnOn <= |bank|
    requires |idx| == turnOn && Indices(idx, 0, |bank|)
    ensures Value(Select(bank, idx)) <= Joltage(bank, turnOn)
    ensures Joltage(bank, turnOn) < Pow10(turnOn)
  {
    JoltageFromPicks(bank, 0, turnOn, 0);
    PicksAreLargest(bank, 0, turnOn, idx);
    ValueBound(Select(bank, Picks(bank, 0, turnOn)));
  }

  /** `total_joltage`: the sum over all banks. */
  function TotalJoltage(banks: seq<seq<nat>>, turnOn: nat): nat
    requires forall b :: b in banks ==> turnOn <= |b|
  {
    if |banks| == 0 then 0 else Joltage(banks[0], turnOn) + TotalJoltage(banks[1..], turnOn)
  }

  /** The total over two lists of banks is the sum of their totals. */
  lemma {:induction false} TotalJoltageAppend(a: seq<seq<nat>>, b: seq<seq<nat>>, turnOn: nat)
    requires forall x :: x in a + b ==> turnOn <= |x|
    ensures TotalJoltage(a + b, turnOn) == TotalJoltage(a, turnOn) + TotalJoltage(b, turnOn)
    decreases |a|
  {
    if |a| > 0 {
      assert (a + b)[1..] == a[1..] + b;
      TotalJoltageAppend(a[1..], b, turnOn);
    } else {
      assert a + b == b;
    }
  }
}
