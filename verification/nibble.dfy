/** Model of src/nibble.rs: splitting bytes into 4-bit nibbles, and the
    `repeated(n)` adaptor that reports runs of equal items. */
module Nibble {
  import opened Wrappers

  type byte = b: nat | b < 256

  /** The `Nibbles` iterator: the byte slice and the index of the next nibble. */
  datatype Nibbles = Nibbles(bytes: seq<byte>, index: nat)

  /** One call of `Nibbles::next`: even indices give the high nibble of a
      byte, odd indices the low one; past the end it yields None. */
  function NibblesNext(it: Nibbles): (r: (Option<nat>, Nibbles))
    ensures r.0 == None <==> it.index >= 2 * |it.bytes|
    ensures r.0 == None ==> r.1 == it
    ensures r.0.Some? ==> r.0.value < 16 && r.1 == Nibbles(it.bytes, it.index + 1)
  {
    var byteIdx := it.index / 2;
    if byteIdx >= |it.bytes| then (None, it)
    else
      var nibble := if it.index % 2 == 0 then it.bytes[byteIdx] / 16 else it.bytes[byteIdx] % 16;
      (Some(nibble), Nibbles(it.bytes, it.index + 1))
  }

  /** Everything the iterator yields from its current position onwards. */
  function Drain(it: Nibbles): seq<nat>
    decreases 2 * |it.bytes| - it.index
  {
    var (v, next) := NibblesNext(it);
    match v
    case None => []
    case Some(x) => [x] + Drain(next)
  }

  /** `bytes.nibbles()` collected. */
  function NibblesOf(bytes: seq<byte>): seq<nat> {
    Drain(Nibbles(bytes, 0))
  }

  /** Reference: glue each high/low pair back into one byte. */
  function Join(ns: seq<nat>): seq<nat>
    requires |ns| % 2 == 0
  {
    if |ns| == 0 then [] else [16 * ns[0] + ns[1]] + Join(ns[2..])
  }

  /** What draining from index `index` yields, element by element. */
  lemma {:induction false} DrainShape(it: Nibbles)
    requires it.index <= 2 * |it.bytes|
    ensures |Drain(it)| == 2 * |it.bytes| - it.index
    ensures forall i :: 0 <= i < |Drain(it)| ==>
      var k := it.index + i;
      Drain(it)[i] == if k % 2 == 0 then it.bytes[k / 2] / 16 else it.bytes[k / 2] % 16
    decreases 2 * |it.bytes| - it.index
  {
    if it.index < 2 * |it.bytes| {
      var next := Nibbles(it.bytes, it.index + 1);
      DrainShape(next);
      var (v, n') := NibblesNext(it);
      assert n' == next;
      assert Drain(it) == [v.value] + Drain(next);
    }
  }

  /** `nibbles` yields exactly two values per byte: the high nibble of byte
      k at position 2k and the low nibble at 2k+1, each below 16. */
  lemma NibblesLayout(bytes: seq<byte>)
    ensures |NibblesOf(bytes)| == 2 * |bytes|
    ensures forall k :: 0 <= k < |bytes| ==>
      NibblesOf(bytes)[2 * k] == bytes[k] / 16 && NibblesOf(bytes)[2 * k + 1] == bytes[k] % 16
    ensures forall i :: 0 <= i < |NibblesOf(bytes)| ==> NibblesOf(bytes)[i] < 16
  {
    DrainShape(Nibbles(bytes, 0));
    var ns := NibblesOf(bytes);
    forall k | 0 <= k < |bytes|
      ensures ns[2 * k] == bytes[k] / 16 && ns[2 * k + 1] == bytes[k] % 16
    {
      assert (2 * k) / 2 == k && (2 * k) % 2 == 0;
      assert (2 * k + 1) / 2 == k && (2 * k + 1) % 2 == 1;
    }
  }

  /** Gluing each nibble pair back together restores the bytes. */
  lemma {:induction false} NibblesRoundTrip(bytes: seq<byte>)
    ensures |NibblesOf(bytes)| % 2 == 0
    ensures Join(NibblesOf(bytes)) == bytes
    decreases |bytes|
  {
    NibblesLayout(bytes);
    JoinOfLayout(NibblesOf(bytes), bytes);
  }

  lemma {:induction false} JoinOfLayout(ns: seq<nat>, bytes: seq<byte>)
    requires |ns| == 2 * |bytes|
    requires forall k :: 0 <= k < |bytes| ==> ns[2 * k] == bytes[k] / 16 && ns[2 * k + 1] == bytes[k] % 16
    ensures Join(ns) == bytes
    decreases |bytes|
  {
    if |bytes| > 0 {
      assert ns[0] == bytes[0] / 16 && ns[1] == bytes[0] % 16;
      forall k | 0 <= k < |bytes[1..]|
        ensures ns[2..][2 * k] == bytes[1..][k] / 16 && ns[2..][2 * k + 1] == bytes[1..][k] % 16
      {
        assert ns[2..][2 * k] == ns[2 * (k + 1)];
        assert ns[2..][2 * k + 1] == ns[2 * (k + 1) + 1];
      }
      JoinOfLayout(ns[2..], bytes[1..]);
      assert bytes == [bytes[0]] + bytes[1..];
    }
  }

  // ---------------------------------------------------------------------
  // Runs of equal items

  /** Length of the run of items equal to `s[0]` at the front of `s`:
      the inner `while peek() == Some(&val)` loop plus the item itself. */
  function RunLength(s: seq<nat>): (c: nat)
    requires |s| > 0
    ensures 1 <= c <= |s|
    ensures forall i :: 0 <= i < c ==> s[i] == s[0]
    ensures c < |s| ==> s[c] != s[0]
  {
    if |s| == 1 || s[1] != s[0] then 1 else 1 + RunLength(s[1..])
  }

  /** The items `s.repeated(minLength)` yields: for each maximal run of equal
      consecutive items, its value when the run is at least `minLength` long. */
  function Repeated(s: seq<nat>, minLength: nat): (r: seq<nat>)
    decreases |s|
  {
    if |s| == 0 then []
    else
      var count := RunLength(s);
      if count >= minLength then [s[0]] + Repeated(s[count..], minLength)
      else Repeated(s[count..], minLength)
  }

  /** Reference decomposition of a sequence into maximal runs (value, length). */
  function Runs(s: seq<nat>): seq<(nat, nat)>
    decreases |s|
  {
    if |s| == 0 then [] else [(s[0], RunLength(s))] + Runs(s[RunLength(s)..])
  }

  function Expand(runs: seq<(nat, nat)>): seq<nat> {
    if |runs| == 0 then [] else seq(runs[0].1, _ => runs[0].0) + Expand(runs[1..])
  }

  /** The runs are non-empty, adjacent runs have different values, and
      expanding them gives back the sequence. */
  lemma {:induction false} RunsDecompose(s: seq<nat>)
    ensures Expand(Runs(s)) == s
    ensures forall i :: 0 <= i < |Runs(s)| ==> Runs(s)[i].1 >= 1
    ensures forall i :: 0 <= i < |Runs(s)| - 1 ==> Runs(s)[i].0 != Runs(s)[i + 1].0
    ensures |Runs(s)| > 0 ==> Runs(s)[0].0 == s[0]
    decreases |s|
  {
    if |s| > 0 {
      var c := RunLength(s);
      var rest := s[c..];
      assert s == s[..c] + rest;
      assert seq(c, _ => s[0]) == s[..c];
      RunsDecompose(rest);
      if |rest| > 0 {
        assert Runs(rest)[0].0 == rest[0] == s[c];
      }
    }
  }

  /** `repeated(n)` keeps exactly the values of the runs of length at least n. */
  lemma {:induction false} RepeatedIsRunFilter(s: seq<nat>, minLength: nat)
    ensures Repeated(s, minLength) == KeepLongRuns(Runs(s), minLength)
    decreases |s|
  {
    if |s| > 0 {
      RepeatedIsRunFilter(s[RunLength(s)..], minLength);
    }
  }

  function KeepLongRuns(runs: seq<(nat, nat)>, minLength: nat): seq<nat> {
    if |runs| == 0 then []
    else if runs[0].1 >= minLength then [runs[0].0] + KeepLongRuns(runs[1..], minLength)
    else KeepLongRuns(runs[1..], minLength)
  }

  /** The output is never longer than the input. */
  lemma {:induction false} RepeatedNoLonger(s: seq<nat>, minLength: nat)
    ensures |Repeated(s, minLength)| <= |s|
    decreases |s|
  {
    if |s| > 0 {
      RepeatedNoLonger(s[RunLength(s)..], minLength);
    }
  }

  /** Reference: drop every item equal to its predecessor. */
  function Dedup(s: seq<nat>): seq<nat>
    decreases |s|
  {
    if |s| <= 1 then s
    else if s[0] == s[1] then Dedup(s[1..])
    else [s[0]] + Dedup(s[1..])
  }

  /** `repeated(1)` (every run qualifies) collapses consecutive duplicates. */
  lemma {:induction false} RepeatedOneIsDedup(s: seq<nat>)
    ensures Repeated(s, 1) == Dedup(s)
    decreases |s|
  {
    if |s| > 0 {
      var c := RunLength(s);
      RepeatedOneIsDedup(s[c..]);
      DedupSkipsRun(s, c);
    }
  }

  /** Dedup of a sequence whose first c items are equal keeps one of them. */
  lemma {:induction false} DedupSkipsRun(s: seq<nat>, c: nat)
    requires 1 <= c <= |s|
    requires forall i :: 0 <= i < c ==> s[i] == s[0]
    requires c < |s| ==> s[c] != s[0]
    ensures Dedup(s) == [s[0]] + Dedup(s[c..])
    decreases c
  {
    if c == 1 {
      if |s| == 1 {
        assert Dedup(s[1..]) == [];
      } else {
        assert s[0] != s[1];
      }
    } else {
      assert s[0] == s[1];
      DedupSkipsRun(s[1..], c - 1);
      assert s[1..][c - 1..] == s[c..];
    }
  }

  /** No two adjacent items of `repeated(1)` are equal. */
  lemma RepeatedOneHasNoAdjacentDuplicates(s: seq<nat>)
    ensures forall i :: 0 <= i < |Repeated(s, 1)| - 1 ==> Repeated(s, 1)[i] != Repeated(s, 1)[i + 1]
  {
    RepeatedIsRunFilter(s, 1);
    RunsDecompose(s);
    KeepAllRuns(Runs(s));
  }

  lemma {:induction false} KeepAllRuns(runs: seq<(nat, nat)>)
    requires forall i :: 0 <= i < |runs| ==> runs[i].1 >= 1
    ensures |KeepLongRuns(runs, 1)| == |runs|
    ensures forall i :: 0 <= i < |runs| ==> KeepLongRuns(runs, 1)[i] == runs[i].0
    decreases |runs|
  {
    if |runs| > 0 {
      KeepAllRuns(runs[1..]);
    }
  }
}
