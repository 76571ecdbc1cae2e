/** Model of the kernel of src/bin/10.rs: machines whose buttons toggle
    indicator lights. */
module Day10 {
  import opened Seqs

  /** One line of the manual: the light diagram (`#` is on), the lights
      each button is wired to, and the joltage requirements. */
  datatype Schema = Schema(diagram: seq<bool>, wirings: seq<seq<nat>>, joltage: seq<nat>)

  datatype Machine = Machine(lights: seq<bool>, schema: Schema)

  /** `Machine::new`: every light off, one light per diagram entry. */
  function New(schema: Schema): (m: Machine)
    ensures |m.lights| == |schema.diagram| && m.schema == schema
    ensures forall j :: 0 <= j < |m.lights| ==> !m.lights[j]
  {
    Machine(seq(|schema.diagram|, j => false), schema)
  }

  /** `can_start`: the lights show the diagram. */
  predicate CanStart(m: Machine) {
    m.lights == m.schema.diagram
  }

  /** A new machine can start exactly when its diagram has no light on. */
  lemma NewCanStart(schema: Schema)
    ensures CanStart(New(schema)) <==> forall j :: 0 <= j < |schema.diagram| ==> !schema.diagram[j]
  {
  }

  /** The button exists and every light it is wired to exists: `push`
      asserts the first and indexing panics without the second. */
  predicate Pushable(m: Machine, button: nat) {
    && button < |m.schema.wirings|
    && forall k :: 0 <= k < |m.schema.wirings[button]| ==> m.schema.wirings[button][k] < |m.lights|
  }

  /** How often light `j` occurs in a wiring. */
  function Occurrences(w: seq<nat>, j: nat): (n: nat)
    ensures n == multiset(w)[j]
  {
    if |w| == 0 then 0
    else
      assert w == [w[0]] + w[1..];
      (if w[0] == j then 1 else 0) + Occurrences(w[1..], j)
  }

  predicate Odd(n: nat) {
    n % 2 == 1
  }

  /** Toggling the lights of a wiring one after the other. */
  function Flip(lights: seq<bool>, w: seq<nat>): (r: seq<bool>)
    requires forall k :: 0 <= k < |w| ==> w[k] < |lights|
    ensures |r| == |lights|
    decreases |w|
  {
    if |w| == 0 then lights
    else Flip(lights[w[0] := !lights[w[0]]], w[1..])
  }

  /** A light ends up toggled exactly when it occurs an odd number of times
      in the wiring. */
  lemma {:induction false} FlipParity(lights: seq<bool>, w: seq<nat>, j: nat)
    requires forall k :: 0 <= k < |w| ==> w[k] < |lights|
    requires j < |lights|
    ensures Flip(lights, w)[j] == (lights[j] != Odd(Occurrences(w, j)))
    decreases |w|
  {
    if |w| > 0 {
      FlipParity(lights[w[0] := !lights[w[0]]], w[1..], j);
    }
  }

  /** `push`, as a pure function. */
  function Push(m: Machine, button: nat): (r: Machine)
    requires Pushable(m, button)
    ensures r.schema == m.schema && |r.lights| == |m.lights|
  {
    Machine(Flip(m.lights, m.schema.wirings[button]), m.schema)
  }

  /** `push` flips exactly the lights wired to the button an odd number of
      times and leaves every other light as it was. */
  lemma PushSpec(m: Machine, button: nat, j: nat)
    requires Pushable(m, button) && j < |m.lights|
    ensures Push(m, button).lights[j] == (m.lights[j] != Odd(Occurrences(m.schema.wirings[button], j)))
    ensures j !in m.schema.wirings[button] ==> Push(m, button).lights[j] == m.lights[j]
  {
    FlipParity(m.lights, m.schema.wirings[button], j);
  }

  /** `push` as the source writes it: a loop toggling each wired light of a
      copy of the lights. */
  method PushLoop(m: Machine, button: nat) returns (r: Machine)
    requires Pushable(m, button)
    ensures r == Push(m, button)
  {
    var w := m.schema.wirings[button];
    var lights := m.lights;
    var k := 0;
    while k < |w|
      invariant 0 <= k <= |w| && |lights| == |m.lights|
      invariant Flip(lights, w[k..]) == Flip(m.lights, w)
    {
      assert w[k..][1..] == w[k + 1..];
      lights := lights[w[k] := !lights[w[k]]];
      k := k + 1;
    }
    assert w[k..] == [];
    r := Machine(lights, m.schema);
  }

  /** Pushing a button twice restores the lights. */
  lemma PushTwice(m: Machine, button: nat)
    requires Pushable(m, button)
    ensures Pushable(Push(m, button), button)
    ensures Push(Push(m, button), button) == m
  {
    var m1 := Push(m, button);
    var m2 := Push(m1, button);
    forall j | 0 <= j < |m.lights| ensures m2.lights[j] == m.lights[j] {
      PushSpec(m, button, j);
      PushSpec(m1, button, j);
    }
  }

  /** Pushes commute. */
  lemma PushCommutes(m: Machine, a: nat, b: nat)
    requires Pushable(m, a) && Pushable(m, b)
    ensures Pushable(Push(m, a), b) && Pushable(Push(m, b), a)
    ensures Push(Push(m, a), b) == Push(Push(m, b), a)
  {
    var ab := Push(Push(m, a), b);
    var ba := Push(Push(m, b), a);
    forall j | 0 <= j < |m.lights| ensures ab.lights[j] == ba.lights[j] {
      PushSpec(m, a, j);
      PushSpec(m, b, j);
      PushSpec(Push(m, a), b, j);
      PushSpec(Push(m, b), a, j);
    }
  }

  // ---------------------------------------------------------------------
  // Sequences of pushes (the moves `fewest_presses_to_start` searches)

  /** Every button's wiring stays within the lights. */
  predicate WellWired(m: Machine) {
    forall b :: 0 <= b < |m.schema.wirings| ==> Pushable(m, b)
  }

  predicate Buttons(m: Machine, bs: seq<nat>) {
    forall k :: 0 <= k < |bs| ==> bs[k] < |m.schema.wirings|
  }

  lemma PushKeepsWellWired(m: Machine, b: nat)
    requires WellWired(m) && b < |m.schema.wirings|
    ensures WellWired(Push(m, b))
  {
    forall c | 0 <= c < |m.schema.wirings| ensures Pushable(Push(m, b), c) {
      assert Pushable(m, c);
    }
  }

  /** Pushing the buttons `bs` in order. */
  function PushAll(m: Machine, bs: seq<nat>): (r: Machine)
    requires WellWired(m) && Buttons(m, bs)
    ensures r.schema == m.schema && |r.lights| == |m.lights| && WellWired(r)
    decreases |bs|
  {
    if |bs| == 0 then m
    else
      PushKeepsWellWired(m, bs[0]);
      PushAll(Push(m, bs[0]), bs[1..])
  }

  lemma ButtonsConcat(m: Machine, xs: seq<nat>, b: nat, ys: seq<nat>)
    requires Buttons(m, xs) && b < |m.schema.wirings| && Buttons(m, ys)
    ensures Buttons(m, xs + [b] + ys) && Buttons(m, xs + ys)
  {
  }

  /** A push may be moved to the front. */
  lemma {:induction false} PushToFront(m: Machine, xs: seq<nat>, b: nat, ys: seq<nat>)
    requires WellWired(m) && Buttons(m, xs) && b < |m.schema.wirings| && Buttons(m, ys)
    ensures (ButtonsConcat(m, xs, b, ys); PushKeepsWellWired(m, b);
      PushAll(m, xs + [b] + ys) == PushAll(Push(m, b), xs + ys))
    decreases |xs|
  {
    ButtonsConcat(m, xs, b, ys);
    PushKeepsWellWired(m, b);
    if |xs| == 0 {
      assert xs + [b] + ys == [b] + ys && xs + ys == ys;
    } else {
      var x := xs[0];
      PushKeepsWellWired(m, x);
      assert (xs + [b] + ys)[0] == x && (xs + [b] + ys)[1..] == xs[1..] + [b] + ys;
      assert (xs + ys)[0] == x && (xs + ys)[1..] == xs[1..] + ys;
      PushToFront(Push(m, x), xs[1..], b, ys);
      PushCommutes(m, x, b);
      PushKeepsWellWired(Push(m, b), x);
    }
  }

  lemma RemoveDistinct(s: seq<nat>, i: nat)
    requires Distinct(s) && i < |s|
    ensures Distinct(s[..i] + s[i + 1..])
    ensures forall x :: x in s[..i] + s[i + 1..] ==> x in s
  {
    var t := s[..i] + s[i + 1..];
    forall p, q | 0 <= p < q < |t| ensures t[p] != t[q] {
      var p' := if p < i then p else p + 1;
      var q' := if q < i then q else q + 1;
      assert t[p] == s[p'] && t[q] == s[q'];
    }
    forall x | x in t ensures x in s {
      var p :| 0 <= p < |t| && t[p] == x;
      var p' := if p < i then p else p + 1;
      assert t[p] == s[p'];
    }
  }

  /** The buttons pressed an odd number of times, each once. */
  function Reduce(bs: seq<nat>): (r: seq<nat>)
    decreases |bs|
  {
    if |bs| == 0 then []
    else
      var r := Reduce(bs[1..]);
      if bs[0] in r then
        var i := IndexOf(r, bs[0]);
        r[..i] + r[i + 1..]
      else [bs[0]] + r
  }

  /** The reduced sequence repeats no button, uses only buttons of `bs` and
      is no longer. */
  lemma {:induction false} ReduceDistinct(bs: seq<nat>)
    ensures Distinct(Reduce(bs)) && |Reduce(bs)| <= |bs|
    ensures forall x :: x in Reduce(bs) ==> x in bs
    decreases |bs|
  {
    if |bs| > 0 {
      ReduceDistinct(bs[1..]);
      ReduceStep(bs);
    }
  }

  /** One step of ReduceDistinct: the facts for the tail give those for `bs`. */
  lemma ReduceStep(bs: seq<nat>)
    requires |bs| > 0
    requires Distinct(Reduce(bs[1..])) && |Reduce(bs[1..])| <= |bs| - 1
    requires forall x :: x in Reduce(bs[1..]) ==> x in bs[1..]
    ensures Distinct(Reduce(bs)) && |Reduce(bs)| <= |bs|
    ensures forall x :: x in Reduce(bs) ==> x in bs
  {
    var r := Reduce(bs[1..]);
    assert forall x :: x in bs[1..] ==> x in bs;
    if bs[0] in r {
      var i := IndexOf(r, bs[0]);
      RemoveDistinct(r, i);
      assert Reduce(bs) == r[..i] + r[i + 1..];
    } else {
      assert Reduce(bs) == [bs[0]] + r;
      ConsDistinct(bs[0], r);
    }
  }

  /** Putting a new button in front keeps a sequence free of repeats. */
  lemma ConsDistinct(b: nat, r: seq<nat>)
    requires Distinct(r) && b !in r
    ensures Distinct([b] + r)
  {
    var s := [b] + r;
    forall p, q | 0 <= p < q < |s| ensures s[p] != s[q] {
      if p == 0 {
        assert s[q] == r[q - 1];
      } else {
        assert s[p] == r[p - 1] && s[q] == r[q - 1];
      }
    }
  }

  lemma ReduceButtons(m: Machine, bs: seq<nat>)
    requires Buttons(m, bs)
    ensures Buttons(m, Reduce(bs))
  {
    ReduceDistinct(bs);
    forall k | 0 <= k < |Reduce(bs)| ensures Reduce(bs)[k] < |m.schema.wirings| {
      assert Reduce(bs)[k] in bs;
    }
  }

  /** Pushing `b` and then `r`, which holds `b`, is pushing `r` without its
      first `b`. */
  lemma PushCancels(m: Machine, b: nat, r: seq<nat>)
    requires WellWired(m) && b < |m.schema.wirings| && Buttons(m, r) && b in r
    ensures (PushKeepsWellWired(m, b); var i := IndexOf(r, b);
      Buttons(m, r[..i] + r[i + 1..]) && PushAll(m, r[..i] + r[i + 1..]) == PushAll(Push(m, b), r))
  {
    PushKeepsWellWired(m, b);
    var i := IndexOf(r, b);
    assert r == r[..i] + [b] + r[i + 1..];
    PushToFront(Push(m, b), r[..i], b, r[i + 1..]);
    PushTwice(m, b);
  }

  /** Any sequence of pushes has the effect of pushing some buttons once
      each. */
  lemma {:induction false} PushAllReduce(m: Machine, bs: seq<nat>)
    requires WellWired(m) && Buttons(m, bs)
    ensures (ReduceButtons(m, bs); PushAll(m, Reduce(bs)) == PushAll(m, bs))
    decreases |bs|
  {
    ReduceButtons(m, bs);
    if |bs| > 0 {
      var b := bs[0];
      var r := Reduce(bs[1..]);
      PushKeepsWellWired(m, b);
      assert Buttons(m, bs[1..]);
      ReduceButtons(m, bs[1..]);
      PushAllReduce(Push(m, b), bs[1..]);
      if b in r {
        PushCancels(m, b, r);
      } else {
        assert ([b] + r)[0] == b && ([b] + r)[1..] == r;
      }
    }
  }

  lemma {:induction false} DistinctBelow(s: seq<nat>, n: nat)
    requires Distinct(s) && forall k :: 0 <= k < |s| ==> s[k] < n
    ensures |s| <= n
    decreases n
  {
    if |s| > 0 {
      assert s[0] < n;
      if n - 1 in s {
        var i :| 0 <= i < |s| && s[i] == n - 1;
        var t := s[..i] + s[i + 1..];
        assert Distinct(t) by {
          forall p, q | 0 <= p < q < |t| ensures t[p] != t[q] {
            var p' := if p < i then p else p + 1;
            var q' := if q < i then q else q + 1;
            assert t[p] == s[p'] && t[q] == s[q'];
          }
        }
        forall k | 0 <= k < |t| ensures t[k] < n - 1 {
          var k' := if k < i then k else k + 1;
          assert t[k] == s[k'] && k' != i;
        }
        DistinctBelow(t, n - 1);
      } else {
        forall k | 0 <= k < |s| ensures s[k] < n - 1 {
          assert s[k] in s;
        }
        DistinctBelow(s, n - 1);
      }
    }
  }

  /** If some sequence of pushes starts the machine, one using each button
      at most once does: the breadth-first search of
      `fewest_presses_to_start` needs at most as many pushes as there are
      buttons. */
  lemma FewPushesSuffice(m: Machine, bs: seq<nat>)
    requires WellWired(m) && Buttons(m, bs) && CanStart(PushAll(m, bs))
    ensures exists cs: seq<nat> :: (Buttons(m, cs) && Distinct(cs) && CanStart(PushAll(m, cs))
      && |cs| <= |bs| && |cs| <= |m.schema.wirings|)
  {
    ReduceButtons(m, bs);
    PushAllReduce(m, bs);
    var r := Reduce(bs);
    ReduceDistinct(bs);
    DistinctBelow(r, |m.schema.wirings|);
    assert Buttons(m, r) && Distinct(r) && CanStart(PushAll(m, r)) && |r| <= |bs| && |r| <= |m.schema.wirings|;
  }
}
