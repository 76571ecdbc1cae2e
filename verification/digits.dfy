/** Model of src/digits.rs: the least-significant-first digit iterator. */
module Digits {
  import opened Wrappers

  /** The iterator's state: the part of the number not yet emitted, and the base. */
  datatype DigitIterator = DigitIterator(current: nat, base: nat)

  /** One call of `next`: None once the number is exhausted, otherwise the
      lowest digit together with the iterator advanced past it. Division by
      a zero base panics in the source, hence the precondition. */
  function Next(it: DigitIterator): (r: (Option<nat>, DigitIterator))
    requires it.base >= 1
    ensures it.current == 0 <==> r.0 == None
    ensures r.0 == None ==> r.1 == it
    ensures r.0.Some? ==> r.0.value < it.base && r.1.base == it.base
    ensures r.0.Some? ==> it.current == r.1.current * it.base + r.0.value
  {
    if it.current == 0 then (None, it)
    else (Some(it.current % it.base), DigitIterator(it.current / it.base, it.base))
  }

  /** Everything `digits(n, base)` yields, collected in order. A base of 1
      never reaches zero in the source, so the base must be at least 2. */
  function Digits(n: nat, base: nat): (r: seq<nat>)
    requires base >= 2
    decreases n
  {
    var (d, rest) := Next(DigitIterator(n, base));
    match d
    case None => []
    case Some(digit) => [digit] + Digits(rest.current, base)
  }

  /** Reads a least-significant-first digit sequence back as a number. */
  function FromDigits(ds: seq<nat>, base: nat): nat {
    if |ds| == 0 then 0 else ds[0] + base * FromDigits(ds[1..], base)
  }

  /** Zero has no digits. */
  lemma DigitsOfZero(base: nat)
    requires base >= 2
    ensures Digits(0, base) == []
  {
  }

  /** Every digit is below the base, the most significant one is not zero,
      and reading the digits back gives the number. */
  lemma {:induction false} DigitsRoundTrip(n: nat, base: nat)
    requires base >= 2
    ensures forall i :: 0 <= i < |Digits(n, base)| ==> Digits(n, base)[i] < base
    ensures n > 0 ==> |Digits(n, base)| > 0 && Digits(n, base)[|Digits(n, base)| - 1] != 0
    ensures FromDigits(Digits(n, base), base) == n
    decreases n
  {
    if n > 0 {
      DigitsRoundTrip(n / base, base);
      var rest := Digits(n / base, base);
      assert Digits(n, base) == [n % base] + rest;
      assert ([n % base] + rest)[1..] == rest;
    }
  }

  /** The other direction: a digit sequence with every digit below the base
      and no leading (most significant) zero is what `digits` yields for its
      value. */
  lemma {:induction false} FromDigitsRoundTrip(ds: seq<nat>, base: nat)
    requires base >= 2
    requires forall i :: 0 <= i < |ds| ==> ds[i] < base
    requires |ds| > 0 ==> ds[|ds| - 1] != 0
    ensures Digits(FromDigits(ds, base), base) == ds
    decreases |ds|
  {
    if |ds| > 0 {
      var rest := ds[1..];
      FromDigitsRoundTrip(rest, base);
      var m := FromDigits(rest, base);
      var n := FromDigits(ds, base);
      assert n == ds[0] + base * m;
      if |rest| > 0 {
        FromDigitsPositive(rest, base);
      }
      assert n > 0;
      assert n % base == ds[0] && n / base == m by {
        DivModUnique(n, base, m, ds[0]);
      }
      assert ds == [ds[0]] + rest;
    }
  }

  /** A digit sequence whose last digit is non-zero reads as a positive number. */
  lemma {:induction false} FromDigitsPositive(ds: seq<nat>, base: nat)
    requires base >= 2
    requires |ds| > 0 && ds[|ds| - 1] != 0
    ensures FromDigits(ds, base) > 0
    decreases |ds|
  {
    if |ds| > 1 {
      FromDigitsPositive(ds[1..], base);
    }
  }

  lemma DivModUnique(n: nat, base: nat, q: nat, r: nat)
    requires base >= 2 && r < base && n == r + base * q
    ensures n % base == r && n / base == q
  {
    var q', r' := n / base, n % base;
    assert n == base * q' + r';
    if q > q' {
      MulAtLeast(base, q - q');
      assert false;
    } else if q < q' {
      MulAtLeast(base, q' - q);
      assert false;
    }
  }

  lemma MulAtLeast(a: nat, k: nat)
    requires k >= 1
    ensures a * k >= a
  {
  }
}
