/** Model of src/bin/01.rs: a dial numbered 0..99 that counts how often it
    reaches 0, either at the end of each rotation (part one) or at every
    click that passes over it (part two). */
module Day01 {

  /** The dial's position and the number of times 0 has been counted. */
  datatype Dial = Dial(value: int, clicks: int)

  /** `Dial::new`: the dial starts at 50 with nothing counted. */
  function NewDial(): (d: Dial)
    ensures d.value == 50 && d.clicks == 0
    ensures InRange(d)
  {
    Dial(50, 0)
  }

  /** The positions a dial may rest at. */
  predicate InRange(d: Dial) {
    0 <= d.value < 100
  }

  /** Rust's `/` on `isize`: the quotient truncated toward zero. */
  function Quot(a: int, b: int): int
    requires b > 0
  {
    if a >= 0 then a / b else -((-a) / b)
  }

  /** Rust's `%` on `isize`: the remainder takes the dividend's sign. */
  function Rem(a: int, b: int): (r: int)
    requires b > 0
    ensures a == Quot(a, b) * b + r
    ensures -b < r < b
    ensures a >= 0 ==> r == a % b
  {
    if a >= 0 then a % b else -((-a) % b)
  }

  /** `while value < 0 { value += 100 } value %= 100`: the loop and the
      remainder together land on the non-negative residue. */
  function Normalise(v: int): (r: int)
    ensures 0 <= r < 100
    ensures r == v % 100
    decreases if v < 0 then -v else 0
  {
    if v < 0 then Normalise(v + 100) else v % 100
  }

  /** The signed amount a rotation turns by: direction 0 is left (down),
      any other is right (up). */
  function Signed(dir: nat, qty: int): int {
    if dir == 0 then -qty else qty
  }

  /** `rotate1`: turn by `qty` and count one click when the dial stops at 0. */
  function Rotate1(d: Dial, dir: nat, qty: int): (r: Dial)
    ensures InRange(r)
    ensures r.value == (d.value + Signed(dir, qty)) % 100
    ensures r.clicks == d.clicks + (if r.value == 0 then 1 else 0)
  {
    var v := Normalise(d.value + Signed(dir, qty));
    Dial(v, if v == 0 then d.clicks + 1 else d.clicks)
  }

  /** `rotate2`: count every whole turn, plus one more when the remaining
      partial turn, started away from 0, reaches or passes 0. */
  function Rotate2(d: Dial, dir: nat, qty: int): Dial {
    var wasOnZero := d.value == 0;
    var clicks := d.clicks + Quot(qty, 100);
    var v := d.value + Signed(dir, Rem(qty, 100));
    var clicks := if qty > 0 && !wasOnZero && !(1 <= v < 100) then clicks + 1 else clicks;
    Dial(Normalise(v), clicks)
  }

  /** Both rotations leave the dial at the same position for a non-negative
      amount, and rotate2 keeps the dial in range. */
  lemma Rotate2Position(d: Dial, dir: nat, qty: int)
    requires qty >= 0
    ensures Rotate2(d, dir, qty).value == Rotate1(d, dir, qty).value
    ensures InRange(Rotate2(d, dir, qty))
  {
    var s := Signed(dir, Rem(qty, 100));
    assert qty == (qty / 100) * 100 + qty % 100;
    assert (d.value + s) % 100 == (d.value + Signed(dir, qty)) % 100 by {
      assert d.value + Signed(dir, qty) == d.value + s + Signed(dir, (qty / 100) * 100);
      ModShift(d.value + s, if dir == 0 then -(qty / 100) else qty / 100);
    }
  }

  lemma ModShift(a: int, m: int)
    ensures (a + m * 100) % 100 == a % 100
  {
  }

  /** The reference meaning of part two: how many of the unit clicks
      1, 2, .., k of a rotation from `v` leave the dial at 0. */
  function UnitClicks(v: int, dir: nat, k: nat): (r: nat)
    ensures r <= k
  {
    if k == 0 then 0
    else UnitClicks(v, dir, k - 1) + (if (v + Signed(dir, k)) % 100 == 0 then 1 else 0)
  }

  /** Turning right by k passes one 0 per multiple of 100 in (v, v + k]. */
  lemma {:induction false} UnitClicksRight(v: int, dir: nat, k: nat)
    requires dir != 0
    ensures UnitClicks(v, dir, k) == (v + k) / 100 - v / 100
  {
    if k > 0 {
      UnitClicksRight(v, dir, k - 1);
      StepDiv(v + k - 1);
    }
  }

  /** Turning left by k passes one 0 per multiple of 100 in [v - k, v). */
  lemma {:induction false} UnitClicksLeft(v: int, k: nat)
    ensures UnitClicks(v, 0, k) == (v - 1) / 100 - (v - k - 1) / 100
  {
    if k > 0 {
      UnitClicksLeft(v, k - 1);
      StepDiv(v - k - 1);
    }
  }

  /** Floor division by 100 grows by one exactly at multiples of 100. */
  lemma StepDiv(a: int)
    ensures (a + 1) / 100 == a / 100 + (if (a + 1) % 100 == 0 then 1 else 0)
  {
  }

  /** From a dial in range, the clicks rotate2 adds are exactly the unit
      clicks that land on 0. */
  lemma Rotate2CountsZeroes(d: Dial, dir: nat, qty: int)
    requires InRange(d) && qty >= 0
    ensures Rotate2(d, dir, qty).clicks == d.clicks + UnitClicks(d.value, dir, qty)
  {
    var extra := if qty > 0 && d.value != 0 && !(1 <= d.value + Signed(dir, qty % 100) < 100) then 1 else 0;
    assert Rotate2(d, dir, qty).clicks == d.clicks + qty / 100 + extra by {
      Rotate2Clicks(d, dir, qty);
    }
    assert UnitClicks(d.value, dir, qty) == qty / 100 + extra by {
      if dir == 0 {
        CountsLeft(d.value, dir, qty);
      } else {
        CountsRight(d.value, dir, qty);
      }
    }
  }

  /** The left-turn half of Rotate2CountsZeroes, in terms of whole and
      partial turns. */
  lemma CountsLeft(v: int, dir: nat, qty: int)
    requires 0 <= v < 100 && qty >= 0 && dir == 0
    ensures UnitClicks(v, dir, qty) == qty / 100 + (if qty > 0 && v != 0 && !(1 <= v + Signed(dir, qty % 100) < 100) then 1 else 0)
  {
    var u := UnitClicks(v, 0, qty);
    assert u == (v - 1) / 100 - (v - qty - 1) / 100 by { UnitClicksLeft(v, qty); }
    assert (v - qty - 1) / 100 == (v - qty % 100 - 1) / 100 - qty / 100 by { WholeTurns(v - 1, -qty); }
    PartialLeft(v, qty % 100);
  }

  /** The right-turn half of Rotate2CountsZeroes. */
  lemma CountsRight(v: int, dir: nat, qty: int)
    requires 0 <= v < 100 && qty >= 0 && dir != 0
    ensures UnitClicks(v, dir, qty) == qty / 100 + (if qty > 0 && v != 0 && !(1 <= v + Signed(dir, qty % 100) < 100) then 1 else 0)
  {
    var u := UnitClicks(v, dir, qty);
    assert u == (v + qty) / 100 - v / 100 by { UnitClicksRight(v, dir, qty); }
    assert (v + qty) / 100 == (v + qty % 100) / 100 + qty / 100 by { WholeTurns(v, qty); }
    PartialRight(v, qty % 100);
  }

  /** Whole turns can be taken out of a floor division by 100. */
  lemma WholeTurns(a: int, k: int)
    ensures k >= 0 ==> (a + k) / 100 == (a + k % 100) / 100 + k / 100
    ensures k < 0 ==> (a + k) / 100 == (a - (-k) % 100) / 100 - (-k) / 100
  {
    if k >= 0 {
      ModShiftDiv(a + k % 100, k / 100);
    } else {
      ModShiftDiv(a - (-k) % 100, -((-k) / 100));
    }
  }

  /** rotate2's count, for a non-negative amount, split into whole turns and
      the partial turn. */
  lemma Rotate2Clicks(d: Dial, dir: nat, qty: int)
    requires qty >= 0
    ensures qty == (qty / 100) * 100 + qty % 100
    ensures Rotate2(d, dir, qty).clicks == d.clicks + qty / 100 +
      (if qty > 0 && d.value != 0 && !(1 <= d.value + Signed(dir, qty % 100) < 100) then 1 else 0)
  {
  }

  /** A partial right turn by r < 100 from v passes 0 once exactly when it
      starts away from 0 and ends at 100 or beyond. */
  lemma PartialRight(v: int, r: int)
    requires 0 <= v < 100 && 0 <= r < 100
    ensures (v + r) / 100 - v / 100 == if v != 0 && !(1 <= v + r < 100) then 1 else 0
  {
  }

  /** A partial left turn by r < 100 from v passes 0 once exactly when it
      starts away from 0 and ends at 0 or below. */
  lemma PartialLeft(v: int, r: int)
    requires 0 <= v < 100 && 0 <= r < 100
    ensures (v - 1) / 100 - (v - r - 1) / 100 == if v != 0 && !(1 <= v - r < 100) then 1 else 0
  {
  }

  lemma ModShiftDiv(a: int, m: int)
    ensures (a + m * 100) / 100 == a / 100 + m
  {
  }

  /** `part_one` and `part_two`: run every rotation from a new dial. */
  function RunOne(d: Dial, moves: seq<(nat, int)>): (r: Dial)
    ensures InRange(d) ==> InRange(r)
    ensures r.clicks >= d.clicks
    decreases |moves|
  {
    if |moves| == 0 then d else RunOne(Rotate1(d, moves[0].0, moves[0].1), moves[1..])
  }

  function RunTwo(d: Dial, moves: seq<(nat, int)>): Dial
    decreases |moves|
  {
    if |moves| == 0 then d else RunTwo(Rotate2(d, moves[0].0, moves[0].1), moves[1..])
  }

  /** Part one counts the rotations that stop at 0. */
  function StopsAtZero(v: int, moves: seq<(nat, int)>): nat
    decreases |moves|
  {
    if |moves| == 0 then 0
    else
      var w := (v + Signed(moves[0].0, moves[0].1)) % 100;
      (if w == 0 then 1 else 0) + StopsAtZero(w, moves[1..])
  }

  /** Part two counts every unit click, over all rotations, that lands on 0. */
  function AllUnitClicks(v: int, moves: seq<(nat, int)>): nat
    requires forall i :: 0 <= i < |moves| ==> moves[i].1 >= 0
    decreases |moves|
  {
    if |moves| == 0 then 0
    else
      var w := (v + Signed(moves[0].0, moves[0].1)) % 100;
      UnitClicks(v, moves[0].0, moves[0].1) + AllUnitClicks(w, moves[1..])
  }

  lemma {:induction false} PartOneCountsStops(d: Dial, moves: seq<(nat, int)>)
    requires InRange(d)
    ensures RunOne(d, moves).clicks == d.clicks + StopsAtZero(d.value, moves)
    ensures RunOne(d, moves).value == (d.value + SumSigned(moves)) % 100
    decreases |moves|
  {
    if |moves| > 0 {
      var e := Rotate1(d, moves[0].0, moves[0].1);
      PartOneCountsStops(e, moves[1..]);
      ModShiftSum(d.value + Signed(moves[0].0, moves[0].1), SumSigned(moves[1..]));
    }
  }

  /** The net amount a list of rotations turns by. */
  function SumSigned(moves: seq<(nat, int)>): int
    decreases |moves|
  {
    if |moves| == 0 then 0 else Signed(moves[0].0, moves[0].1) + SumSigned(moves[1..])
  }

  lemma ModShiftSum(a: int, b: int)
    ensures (a % 100 + b) % 100 == (a + b) % 100
  {
  }

  /** Starting in range with non-negative amounts, part two's count is the
      number of unit clicks landing on 0, and both parts end at the same
      position. */
  lemma {:induction false} PartTwoCountsPasses(d: Dial, moves: seq<(nat, int)>)
    requires InRange(d)
    requires forall i :: 0 <= i < |moves| ==> moves[i].1 >= 0
    ensures RunTwo(d, moves).clicks == d.clicks + AllUnitClicks(d.value, moves)
    ensures RunTwo(d, moves).value == RunOne(d, moves).value
    decreases |moves|
  {
    if |moves| > 0 {
      var (dir, qty) := moves[0];
      Rotate2Position(d, dir, qty);
      Rotate2CountsZeroes(d, dir, qty);
      PartTwoCountsPasses(Rotate2(d, dir, qty), moves[1..]);
      var e := Rotate2(d, dir, qty);
      assert RunTwo(d, moves) == RunTwo(e, moves[1..]);
      assert RunOne(d, moves) == RunOne(Rotate1(d, dir, qty), moves[1..]);
      assert Rotate1(d, dir, qty) == Dial(e.value, Rotate1(d, dir, qty).clicks);
      RunOneValueIgnoresClicks(Rotate1(d, dir, qty), e, moves[1..]);
    }
  }

  /** Where part one ends does not depend on the count carried along. */
  lemma {:induction false} RunOneValueIgnoresClicks(a: Dial, b: Dial, moves: seq<(nat, int)>)
    requires a.value == b.value
    ensures RunOne(a, moves).value == RunOne(b, moves).value
    decreases |moves|
  {
    if |moves| > 0 {
      RunOneValueIgnoresClicks(Rotate1(a, moves[0].0, moves[0].1), Rotate1(b, moves[0].0, moves[0].1), moves[1..]);
    }
  }

  /** For positive amounts, part two never counts fewer than part one:
      every stop at 0 is also a unit click landing on 0. (A rotation by 0
      while on 0 is counted by rotate1 but not by rotate2.) */
  lemma {:induction false} PartTwoAtLeastPartOne(v: int, moves: seq<(nat, int)>)
    requires forall i :: 0 <= i < |moves| ==> moves[i].1 > 0
    ensures StopsAtZero(v, moves) <= AllUnitClicks(v, moves)
    decreases |moves|
  {
    if |moves| > 0 {
      var (dir, qty) := moves[0];
      var w := (v + Signed(dir, qty)) % 100;
      PartTwoAtLeastPartOne(w, moves[1..]);
      if w == 0 && qty > 0 {
        assert UnitClicks(v, dir, qty) >= 1;
      }
    }
  }
}
