/** Model of src/bin/06.rs: columns of numbers combined by `+` or `*`,
    read row-wise in part one and column-wise, right to left, in part two. */
module Day06 {
  import opened Wrappers
  import Lib
  import Seqs

  // ---------------------------------------------------------------------
  // pad_lines

  /** The length of the longest line, 0 when there are none. */
  function MaxLen(lines: seq<string>): (w: nat)
    ensures forall i :: 0 <= i < |lines| ==> |lines[i]| <= w
    ensures |lines| == 0 ==> w == 0
    ensures |lines| > 0 ==> exists i :: 0 <= i < |lines| && |lines[i]| == w
  {
    if |lines| == 0 then 0
    else
      var m := MaxLen(lines[1..]);
      assert forall i :: 1 <= i < |lines| ==> lines[i] == lines[1..][i - 1];
      if |lines[0]| >= m then |lines[0]|
      else
        assert exists i :: 0 <= i < |lines[1..]| && |lines[1..][i]| == m;
        var i :| 0 <= i < |lines[1..]| && |lines[1..][i]| == m;
        assert |lines[i + 1]| == m;
        m
  }

  /** `Vec::resize(width, ' ')`: truncate, or extend with spaces. */
  function Resize(l: string, width: nat): (r: string)
    ensures |r| == width
    ensures forall k :: 0 <= k < width && k < |l| ==> r[k] == l[k]
    ensures forall k :: |l| <= k < width ==> r[k] == ' '
  {
    if |l| >= width then l[..width] else l + seq(width - |l|, _ => ' ')
  }

  /** `pad_lines`: every line padded with spaces to the longest one. */
  function PadLines(input: string): (grid: seq<string>)
    ensures |grid| == |Lib.Lines(input)|
    ensures forall i :: 0 <= i < |grid| ==> |grid[i]| == MaxLen(Lib.Lines(input))
  {
    var lines := Lib.Lines(input);
    var width := MaxLen(lines);
    seq(|lines|, i requires 0 <= i < |lines| => Resize(lines[i], width))
  }

  /** Padding keeps every line as a prefix and adds nothing but spaces, and
      some line needs no padding at all. */
  lemma PadLinesKeepsLines(input: string)
    ensures var lines := Lib.Lines(input);
      forall i :: 0 <= i < |lines| ==>
        && PadLines(input)[i][..|lines[i]|] == lines[i]
        && forall k :: |lines[i]| <= k < |PadLines(input)[i]| ==> PadLines(input)[i][k] == ' '
    ensures |Lib.Lines(input)| > 0 ==> exists i :: 0 <= i < |Lib.Lines(input)| && PadLines(input)[i] == Lib.Lines(input)[i]
  {
    var lines := Lib.Lines(input);
    var grid := PadLines(input);
    forall i | 0 <= i < |lines| ensures grid[i][..|lines[i]|] == lines[i] {
      assert grid[i] == Resize(lines[i], MaxLen(lines));
    }
    if |lines| > 0 {
      var i :| 0 <= i < |lines| && |lines[i]| == MaxLen(lines);
      assert grid[i] == Resize(lines[i], MaxLen(lines)) == lines[i];
    }
  }

  // ---------------------------------------------------------------------
  // Characters

  predicate IsAsciiDigit(c: char) {
    '0' <= c <= '9'
  }

  predicate IsOperator(c: char) {
    c == '+' || c == '*'
  }

  /** `char::is_whitespace`: the Unicode White_Space property. */
  predicate IsWhitespace(c: char) {
    || '\t' <= c <= '\r'
    || c == ' ' || c == '\U{0085}' || c == '\U{00A0}' || c == '\U{1680}'
    || '\U{2000}' <= c <= '\U{200A}'
    || c == '\U{2028}' || c == '\U{2029}' || c == '\U{202F}' || c == '\U{205F}' || c == '\U{3000}'
  }

  /** `s.trim().is_empty()`: nothing but whitespace. */
  predicate IsBlank(s: string) {
    forall k :: 0 <= k < |s| ==> IsWhitespace(s[k])
  }

  // ---------------------------------------------------------------------
  // parse_number

  /** The ASCII digits of `s`, in order. */
  function DigitChars(s: string): (ds: string)
    ensures forall k :: 0 <= k < |ds| ==> IsAsciiDigit(ds[k])
    ensures |ds| == 0 <==> forall k :: 0 <= k < |s| ==> !IsAsciiDigit(s[k])
  {
    if |s| == 0 then []
    else
      var rest := DigitChars(s[1..]);
      assert forall k :: 1 <= k < |s| ==> s[k] == s[1..][k - 1];
      if IsAsciiDigit(s[0]) then [s[0]] + rest else rest
  }

  /** `str::parse::<usize>` on a string of ASCII digits, most significant first. */
  function Decimal(ds: string): nat
    requires forall k :: 0 <= k < |ds| ==> IsAsciiDigit(ds[k])
  {
    if |ds| == 0 then 0
    else
      assert IsAsciiDigit(ds[|ds| - 1]);
      Decimal(ds[..|ds| - 1]) * 10 + (ds[|ds| - 1] as int - '0' as int)
  }

  /** `parse_number`: the number the digits of `s` spell, ignoring all
      other characters, or None when there are no digits. */
  function ParseNumber(s: string): (r: Option<nat>)
    ensures r.None? <==> forall k :: 0 <= k < |s| ==> !IsAsciiDigit(s[k])
  {
    var ds := DigitChars(s);
    if |ds| == 0 then None else Some(Decimal(ds))
  }

  /** The decimal representation of `n`, without leading zeros. */
  function Show(n: nat): (s: string)
    ensures |s| > 0 && forall k :: 0 <= k < |s| ==> IsAsciiDigit(s[k])
  {
    var d := ('0' as int + n % 10) as char;
    if n < 10 then [d] else Show(n / 10) + [d]
  }

  lemma {:induction false} DecimalShow(n: nat)
    ensures Decimal(Show(n)) == n
  {
    var s := Show(n);
    if n >= 10 {
      DecimalShow(n / 10);
      assert s[..|s| - 1] == Show(n / 10);
    }
  }

  lemma {:induction false} DigitCharsOfDigits(s: string)
    requires forall k :: 0 <= k < |s| ==> IsAsciiDigit(s[k])
    ensures DigitChars(s) == s
  {
    if |s| > 0 {
      DigitCharsOfDigits(s[1..]);
    }
  }

  /** Reading back a printed number gives the number. */
  lemma ParseNumberShow(n: nat)
    ensures ParseNumber(Show(n)) == Some(n)
  {
    DigitCharsOfDigits(Show(n));
    DecimalShow(n);
  }

  lemma {:induction false} DigitCharsAppend(a: string, b: string)
    ensures DigitChars(a + b) == DigitChars(a) + DigitChars(b)
  {
    if |a| > 0 {
      assert (a + b)[1..] == a[1..] + b;
      DigitCharsAppend(a[1..], b);
    } else {
      assert a + b == b;
    }
  }

  /** Characters other than digits around a number do not change it. */
  lemma ParseNumberIgnoresOthers(a: string, n: nat, b: string)
    requires forall k :: 0 <= k < |a| ==> !IsAsciiDigit(a[k])
    requires forall k :: 0 <= k < |b| ==> !IsAsciiDigit(b[k])
    ensures ParseNumber(a + Show(n) + b) == Some(n)
  {
    var s := Show(n);
    DigitCharsAppend(a + s, b);
    DigitCharsAppend(a, s);
    DigitCharsOfDigits(s);
    assert |DigitChars(a)| == 0 && |DigitChars(b)| == 0;
    assert DigitChars(a + s + b) == s;
    DecimalShow(n);
  }

  // ---------------------------------------------------------------------
  // find_operator

  /** The first operator at or after `from`. */
  function FindOperatorFrom(s: string, from: nat): (r: Option<char>)
    requires from <= |s|
    ensures r.None? <==> forall k :: from <= k < |s| ==> !IsOperator(s[k])
    ensures r.Some? ==> exists k :: (from <= k < |s| && s[k] == r.value && IsOperator(s[k])
      && forall j :: from <= j < k ==> !IsOperator(s[j]))
    decreases |s| - from
  {
    if from == |s| then None
    else if IsOperator(s[from]) then Some(s[from])
    else FindOperatorFrom(s, from + 1)
  }

  /** `find_operator`: the first `+` or `*` of `s`, if any. */
  function FindOperator(s: string): (r: Option<char>)
    ensures r.None? <==> forall k :: 0 <= k < |s| ==> !IsOperator(s[k])
    ensures r.Some? ==> IsOperator(r.value) && exists k :: (0 <= k < |s| && s[k] == r.value
      && forall j :: 0 <= j < k ==> !IsOperator(s[j]))
  {
    FindOperatorFrom(s, 0)
  }

  /** A blank column holds neither a number nor an operator, so skipping
      it changes nothing. */
  lemma BlankColumnIsEmpty(s: string)
    requires IsBlank(s)
    ensures ParseNumber(s) == None && FindOperator(s) == None
  {
    forall k | 0 <= k < |s| ensures !IsAsciiDigit(s[k]) && !IsOperator(s[k]) {
      assert IsWhitespace(s[k]);
    }
  }

  // ---------------------------------------------------------------------
  // apply_op and solve

  /** The neutral element and the combination `apply_op` folds with. */
  function Unit(op: char): nat {
    if op == '+' then 0 else 1
  }

  function Combine(op: char, a: nat, b: nat): nat {
    if op == '+' then a + b else a * b
  }

  /** `apply_op`: `+` sums, every other operator multiplies. */
  function ApplyOp(op: char, nums: seq<nat>): (r: nat)
    ensures |nums| == 0 ==> r == Unit(op)
    ensures |nums| == 1 ==> r == nums[0]
  {
    if |nums| == 0 then Unit(op) else Combine(op, nums[0], ApplyOp(op, nums[1..]))
  }

  lemma CombineAssoc(op: char, a: nat, b: nat, c: nat)
    ensures Combine(op, Combine(op, a, b), c) == Combine(op, a, Combine(op, b, c))
  {
    if op != '+' {
      assert (a * b) * c == a * (b * c);
    }
  }

  /** `apply_op` over a concatenation combines the two results. */
  lemma {:induction false} ApplyOpAppend(op: char, a: seq<nat>, b: seq<nat>)
    ensures ApplyOp(op, a + b) == Combine(op, ApplyOp(op, a), ApplyOp(op, b))
    decreases |a|
  {
    if |a| == 0 {
      assert a + b == b;
    } else {
      assert (a + b)[1..] == a[1..] + b;
      ApplyOpAppend(op, a[1..], b);
      CombineAssoc(op, a[0], ApplyOp(op, a[1..]), ApplyOp(op, b));
    }
  }

  /** The result does not depend on the order of the numbers, which is why
      reading the columns right to left is harmless. */
  lemma {:induction false} ApplyOpPermutation(op: char, a: seq<nat>, b: seq<nat>)
    requires multiset(a) == multiset(b)
    ensures ApplyOp(op, a) == ApplyOp(op, b)
    decreases |a|
  {
    if |a| > 0 {
      assert a[0] in multiset(b);
      var k :| 0 <= k < |b| && b[k] == a[0];
      var rest := b[..k] + b[k + 1..];
      MultisetRemove(a, b, k);
      ApplyOpPermutation(op, a[1..], rest);
      ApplyOpRemove(op, b, k);
    }
  }

  /** Taking one number out of the middle and combining it in front. */
  lemma ApplyOpRemove(op: char, b: seq<nat>, k: nat)
    requires k < |b|
    ensures ApplyOp(op, b) == Combine(op, b[k], ApplyOp(op, b[..k] + b[k + 1..]))
  {
    assert b == b[..k] + ([b[k]] + b[k + 1..]);
    ApplyOpAppend(op, b[..k], [b[k]] + b[k + 1..]);
    ApplyOpAppend(op, b[..k], b[k + 1..]);
    assert ([b[k]] + b[k + 1..])[1..] == b[k + 1..];
    var x, y := ApplyOp(op, b[..k]), ApplyOp(op, b[k + 1..]);
    CombineAssoc(op, x, b[k], y);
    CombineAssoc(op, b[k], x, y);
    if op != '+' {
      assert x * b[k] == b[k] * x;
    }
  }

  /** `solve`: the sum of `apply_op` over the (operator, problem) pairs,
      `zip` stopping at the shorter list. */
  function Solve(ops: seq<char>, problems: seq<seq<nat>>): nat
    decreases |ops|
  {
    if |ops| == 0 || |problems| == 0 then 0
    else ApplyOp(ops[0], problems[0]) + Solve(ops[1..], problems[1..])
  }

  /** Only the first `min(|ops|, |problems|)` pairs count. */
  lemma {:induction false} SolveTruncates(ops: seq<char>, problems: seq<seq<nat>>, m: nat)
    requires m == if |ops| <= |problems| then |ops| else |problems|
    ensures Solve(ops, problems) == Solve(ops[..m], problems[..m])
    decreases |ops|
  {
    if m > 0 {
      SolveTruncates(ops[1..], problems[1..], m - 1);
      assert ops[..m][1..] == ops[1..][..m - 1];
      assert problems[..m][1..] == problems[1..][..m - 1];
    }
  }

  /** One more pair adds its `apply_op` to the total. */
  lemma {:induction false} SolveAppend(ops: seq<char>, problems: seq<seq<nat>>, op: char, nums: seq<nat>)
    requires |ops| == |problems|
    ensures Solve(ops + [op], problems + [nums]) == Solve(ops, problems) + ApplyOp(op, nums)
    decreases |ops|
  {
    if |ops| > 0 {
      assert (ops + [op])[1..] == ops[1..] + [op];
      assert (problems + [nums])[1..] == problems[1..] + [nums];
      SolveAppend(ops[1..], problems[1..], op, nums);
    }
  }

  // ---------------------------------------------------------------------
  // parse_columns

  /** The operators found so far and the problems they close; the last
      problem is still open. */
  datatype Parsed = Parsed(ops: seq<char>, problems: seq<seq<nat>>)

  /** Column `col` of a grid, top to bottom. */
  function Column(grid: seq<string>, col: nat): (c: string)
    requires forall r :: 0 <= r < |grid| ==> col < |grid[r]|
    ensures |c| == |grid|
    ensures forall r :: 0 <= r < |grid| ==> c[r] == grid[r][col]
  {
    seq(|grid|, r requires 0 <= r < |grid| => grid[r][col])
  }

  /** One column of the scan: a blank column is skipped, a number joins the
      open problem, and an operator closes it and opens a new one. */
  function ScanColumn(st: Parsed, column: string): (r: Parsed)
    requires |st.problems| > 0
    ensures |r.problems| - |r.ops| == |st.problems| - |st.ops|
    ensures |r.problems| >= |st.problems|
  {
    if IsBlank(column) then st
    else
      var n := |st.problems|;
      var problems := match ParseNumber(column)
        case Some(x) => st.problems[..n - 1] + [st.problems[n - 1] + [x]]
        case None => st.problems;
      match FindOperator(column)
      case Some(op) => Parsed(st.ops + [op], problems + [[]])
      case None => Parsed(st.ops, problems)
  }

  /** The scan over the columns in the order they are visited. */
  function Scan(columns: seq<string>): (r: Parsed)
    ensures |r.problems| == |r.ops| + 1
    decreases |columns|
  {
    if |columns| == 0 then Parsed([], [[]])
    else ScanColumn(Scan(columns[..|columns| - 1]), columns[|columns| - 1])
  }

  /** The columns of a rectangular grid from right to left. */
  function RightToLeft(grid: seq<string>, width: nat): (cols: seq<string>)
    requires forall r :: 0 <= r < |grid| ==> |grid[r]| == width
    ensures |cols| == width
    ensures forall i :: 0 <= i < width ==> cols[i] == Column(grid, width - 1 - i)
  {
    seq(width, i requires 0 <= i < width => Column(grid, width - 1 - i))
  }

  /** `parse_columns`: pad the lines, then scan the columns right to left;
      the width is that of the first padded line. */
  function ParseColumns(input: string): (p: Parsed)
    ensures |p.problems| == |p.ops| + 1
  {
    var grid := PadLines(input);
    var width := if |grid| == 0 then 0 else |grid[0]|;
    Scan(RightToLeft(grid, width))
  }

  /** Reference definitions: the operators, and the numbers, of the
      columns in visiting order. */
  function Operators(columns: seq<string>): seq<char>
    decreases |columns|
  {
    if |columns| == 0 then []
    else
      var c := columns[|columns| - 1];
      Operators(columns[..|columns| - 1]) + OperatorOf(c)
  }

  function Numbers(columns: seq<string>): seq<nat>
    decreases |columns|
  {
    if |columns| == 0 then []
    else
      var c := columns[|columns| - 1];
      Numbers(columns[..|columns| - 1]) + NumberOf(c)
  }

  /** All problems' numbers, in order. */
  function Flatten(problems: seq<seq<nat>>): seq<nat>
    decreases |problems|
  {
    if |problems| == 0 then [] else Flatten(problems[..|problems| - 1]) + problems[|problems| - 1]
  }

  /** What one column contributes: its operator and its number, if any. */
  function OperatorOf(c: string): seq<char> {
    if FindOperator(c).Some? then [FindOperator(c).value] else []
  }

  function NumberOf(c: string): seq<nat> {
    if ParseNumber(c).Some? then [ParseNumber(c).value] else []
  }

  /** The problems after one column: the number, if any, joins the open
      (last) problem, and an operator opens a fresh empty one. */
  function Extended(problems: seq<seq<nat>>, num: seq<nat>, opens: bool): seq<seq<nat>>
    requires |problems| > 0
  {
    var n := |problems|;
    var p := problems[..n - 1] + [problems[n - 1] + num];
    if opens then p + [[]] else p
  }

  /** A column's effect on the open problem does not reach the closed ones
      in front of it. */
  lemma ExtendedAppend(p: seq<seq<nat>>, q: seq<seq<nat>>, num: seq<nat>, opens: bool)
    requires |q| > 0
    ensures Extended(p + q, num, opens) == p + Extended(q, num, opens)
  {
    assert (p + q)[..|p + q| - 1] == p + q[..|q| - 1];
  }

  lemma FlattenSnoc(p: seq<seq<nat>>, x: seq<nat>)
    ensures Flatten(p + [x]) == Flatten(p) + x
  {
    assert (p + [x])[..|p|] == p;
  }

  /** Numbers joining the last problem join the end of all numbers. */
  lemma FlattenGrow(init: seq<seq<nat>>, last: seq<nat>, num: seq<nat>)
    ensures Flatten(init + [last + num]) == Flatten(init + [last]) + num
  {
    FlattenSnoc(init, last + num);
    FlattenSnoc(init, last);
    assert Flatten(init) + (last + num) == (Flatten(init) + last) + num;
  }

  /** Extending adds `num` and nothing else to the numbers of all problems. */
  lemma FlattenExtended(problems: seq<seq<nat>>, num: seq<nat>, opens: bool)
    requires |problems| > 0
    ensures Flatten(Extended(problems, num, opens)) == Flatten(problems) + num
  {
    var n := |problems|;
    var init, last := problems[..n - 1], problems[n - 1];
    var p := init + [last + num];
    Seqs.SplitLast(problems);
    FlattenGrow(init, last, num);
    if opens {
      FlattenSnoc(p, []);
      assert Flatten(p) + [] == Flatten(p);
    }
  }

  /** A column with neither number nor operator changes no problem. */
  lemma ExtendedNothing(problems: seq<seq<nat>>)
    requires |problems| > 0
    ensures Extended(problems, [], false) == problems
  {
    var n := |problems|;
    assert problems[n - 1] + [] == problems[n - 1];
    Seqs.SplitLast(problems);
  }

  /** The scan step in terms of what the column holds. */
  lemma ScanColumnExtends(st: Parsed, c: string)
    requires |st.problems| > 0
    ensures ScanColumn(st, c).ops == st.ops + OperatorOf(c)
    ensures ScanColumn(st, c).problems == Extended(st.problems, NumberOf(c), FindOperator(c).Some?)
  {
    if IsBlank(c) {
      BlankColumnIsEmpty(c);
      ExtendedNothing(st.problems);
    } else if ParseNumber(c).None? {
      ExtendedNothing(st.problems);
    }
  }

  /** One column of the scan: its operator is appended to the operators, its
      number joins the open problem and nothing else, and its operator closes
      that problem behind a new, empty one. */
  lemma ScanColumnCollects(st: Parsed, c: string)
    requires |st.problems| > 0
    ensures ScanColumn(st, c).ops == st.ops + OperatorOf(c)
    ensures var n, r := |st.problems|, ScanColumn(st, c).problems;
      && |r| == n + |OperatorOf(c)|
      && r[..n - 1] == st.problems[..n - 1]
      && r[n - 1] == st.problems[n - 1] + NumberOf(c)
      && (FindOperator(c).Some? ==> r[n] == [])
    ensures Flatten(ScanColumn(st, c).problems) == Flatten(st.problems) + NumberOf(c)
  {
    ScanColumnExtends(st, c);
    FlattenExtended(st.problems, NumberOf(c), FindOperator(c).Some?);
    var n := |st.problems|;
    var p := st.problems[..n - 1] + [st.problems[n - 1] + NumberOf(c)];
    assert p[..n - 1] == st.problems[..n - 1];
  }

  /** The scan keeps every operator, in visiting order, and puts every
      number in some problem, in visiting order. */
  lemma {:induction false} ScanCollects(columns: seq<string>)
    ensures Scan(columns).ops == Operators(columns)
    ensures Flatten(Scan(columns).problems) == Numbers(columns)
    decreases |columns|
  {
    if |columns| > 0 {
      var init := columns[..|columns| - 1];
      ScanCollects(init);
      ScanColumnCollects(Scan(init), columns[|columns| - 1]);
    }
  }

  /** The open problem is empty at the start and right after an operator. */
  lemma OpenProblemEmpty(a: seq<string>)
    requires |a| == 0 || FindOperator(a[|a| - 1]).Some?
    ensures Scan(a).problems[|Scan(a).problems| - 1] == []
  {
    if |a| > 0 {
      ScanColumnExtends(Scan(a[..|a| - 1]), a[|a| - 1]);
    }
  }

  /** Scanning `a` and then `b`: when `a` ends with an operator, the problems
      of `b` start afresh after the closed problems of `a`. */
  lemma {:induction false} ScanGroups(a: seq<string>, b: seq<string>)
    requires |a| == 0 || FindOperator(a[|a| - 1]).Some?
    ensures Scan(a + b).ops == Scan(a).ops + Scan(b).ops
    ensures var p := Scan(a).problems;
      Scan(a + b).problems == p[..|p| - 1] + Scan(b).problems
    decreases |b|
  {
    var p := Scan(a).problems;
    var closed := p[..|p| - 1];
    if |b| == 0 {
      assert a + b == a;
      OpenProblemEmpty(a);
      Seqs.SplitLast(p);
    } else {
      var init, c := b[..|b| - 1], b[|b| - 1];
      var mid, rest := Scan(a + init), Scan(init);
      var num, opens := NumberOf(c), FindOperator(c).Some?;
      assert Scan(a + b) == ScanColumn(mid, c) by {
        Seqs.DropLastAppend(a, b);
      }
      assert mid.problems == closed + rest.problems && mid.ops == Scan(a).ops + rest.ops by {
        ScanGroups(a, init);
      }
      assert Scan(a + b).ops == Scan(a).ops + Scan(b).ops by {
        ScanColumnExtends(mid, c);
        ScanColumnExtends(rest, c);
        Seqs.AppendAssoc(Scan(a).ops, rest.ops, OperatorOf(c));
      }
      assert Scan(a + b).problems == closed + Scan(b).problems by {
        ScanColumnExtends(mid, c);
        ScanColumnExtends(rest, c);
        ExtendedAppend(closed, rest.problems, num, opens);
      }
    }
  }

  /** Columns without an operator form one open problem holding all their
      numbers. */
  lemma ScanNoOperator(b: seq<string>)
    requires Operators(b) == []
    ensures Scan(b).ops == []
    ensures Scan(b).problems == [Numbers(b)]
  {
    ScanCollects(b);
    var p := Scan(b).problems;
    assert p == [] + [p[0]];
    FlattenSnoc([], p[0]);
    assert Flatten([]) + p[0] == p[0];
  }

  /** Operator-free columns followed by an operator column make one closed
      problem holding all their numbers, then an empty open one. */
  lemma ScanCloses(b: seq<string>, c: string)
    requires Operators(b) == [] && FindOperator(c).Some?
    ensures Scan(b + [c]) == Parsed([FindOperator(c).value], [Numbers(b + [c]), []])
  {
    var bc := b + [c];
    assert bc[..|bc| - 1] == b;
    ScanNoOperator(b);
    ScanColumnExtends(Scan(b), c);
    assert Numbers(bc) == Numbers(b) + NumberOf(c);
  }

  /** A problem is exactly the numbers of the columns after the previous
      operator up to and including its own operator column. */
  lemma ScanOneProblem(a: seq<string>, b: seq<string>, c: string)
    requires |a| == 0 || FindOperator(a[|a| - 1]).Some?
    requires Operators(b) == [] && FindOperator(c).Some?
    ensures Scan(a + b + [c]).ops == Scan(a).ops + [FindOperator(c).value]
    ensures var p := Scan(a).problems;
      Scan(a + b + [c]).problems == p[..|p| - 1] + [Numbers(b + [c]), []]
  {
    var bc := b + [c];
    assert a + b + [c] == a + bc;
    ScanCloses(b, c);
    ScanGroups(a, bc);
  }

  // ---------------------------------------------------------------------
  // part_one and part_two

  /** Entry `i` of every row, top to bottom. */
  function ColumnOf(rows: seq<seq<nat>>, i: nat): (c: seq<nat>)
    requires Wide(rows, i + 1)
    ensures |c| == |rows|
    ensures forall r :: 0 <= r < |rows| ==> c[r] == rows[r][i]
  {
    seq(|rows|, r requires 0 <= r < |rows| => rows[r][i])
  }

  predicate Wide(rows: seq<seq<nat>>, w: nat) {
    forall r :: 0 <= r < |rows| ==> w <= |rows[r]|
  }

  /** `part_one`: problem `i` is entry `i` of every row; a row shorter than
      the operator list would make the source index out of bounds. */
  function PartOne(rows: seq<seq<nat>>, ops: seq<char>): nat
    requires Wide(rows, |ops|)
  {
    Solve(ops, seq(|ops|, i requires 0 <= i < |ops| => ColumnOf(rows, i)))
  }

  /** `part_two`. */
  function PartTwo(input: string): nat {
    var p := ParseColumns(input);
    Solve(p.ops, p.problems)
  }

  /** The problem still open when the scan ends has no operator and does
      not count. */
  lemma PartTwoDropsOpenProblem(input: string)
    ensures var p := ParseColumns(input);
      PartTwo(input) == Solve(p.ops, p.problems[..|p.ops|])
  {
    var p := ParseColumns(input);
    SolveTruncates(p.ops, p.problems, |p.ops|);
    assert p.ops[..|p.ops|] == p.ops;
  }

  /** Taking the row at `k` out of the middle of `b`. */
  lemma ColumnOfRemove(b: seq<seq<nat>>, k: nat, i: nat)
    requires Wide(b, i + 1) && k < |b|
    ensures Wide(b[..k] + b[k + 1..], i + 1)
    ensures multiset(ColumnOf(b, i)) == multiset(ColumnOf(b[..k] + b[k + 1..], i)) + multiset{b[k][i]}
  {
    var c := ColumnOf(b, i);
    var rest := b[..k] + b[k + 1..];
    assert forall r :: 0 <= r < |rest| ==> rest[r] == if r < k then b[r] else b[r + 1];
    assert ColumnOf(rest, i) == c[..k] + c[k + 1..];
    RemoveAt(c, k);
  }

  lemma RemoveAt<T>(s: seq<T>, k: nat)
    requires k < |s|
    ensures multiset(s) == multiset(s[..k] + s[k + 1..]) + multiset{s[k]}
  {
    assert s == s[..k] + [s[k]] + s[k + 1..];
  }

  /** Rearranging the rows rearranges every column the same way. */
  lemma {:induction false} ColumnOfPermutation(a: seq<seq<nat>>, b: seq<seq<nat>>, i: nat)
    requires Wide(a, i + 1) && multiset(a) == multiset(b)
    ensures Wide(b, i + 1)
    ensures multiset(ColumnOf(a, i)) == multiset(ColumnOf(b, i))
    decreases |a|
  {
    forall r | 0 <= r < |b| ensures i + 1 <= |b[r]| {
      assert b[r] in multiset(a);
    }
    if |a| > 0 {
      assert a[0] in multiset(b);
      var k :| 0 <= k < |b| && b[k] == a[0];
      var rest := b[..k] + b[k + 1..];
      MultisetRemove(a, b, k);
      ColumnOfPermutation(a[1..], rest, i);
      ColumnOfRemove(b, k, i);
      var ca := ColumnOf(a, i);
      assert ColumnOf(a[1..], i) == ca[1..];
      assert ca == [ca[0]] + ca[1..];
    }
  }

  /** Two permutations of each other stay so when the first element of one
      is removed from the other. */
  lemma MultisetRemove<T>(a: seq<T>, b: seq<T>, k: nat)
    requires multiset(a) == multiset(b) && 0 < |a| && k < |b| && b[k] == a[0]
    ensures multiset(a[1..]) == multiset(b[..k] + b[k + 1..])
  {
    var pre, post := b[..k], b[k + 1..];
    assert b == pre + [a[0]] + post;
    assert multiset(pre + post) == multiset(pre) + multiset(post);
    assert multiset(b) == multiset(pre) + multiset{a[0]} + multiset(post);
    assert a == [a[0]] + a[1..];
    assert multiset(a[1..]) == multiset(a) - multiset{a[0]};
    assert multiset(pre + post) == multiset(b) - multiset{a[0]};
  }

  /** `solve` only looks at each problem's numbers as a multiset. */
  lemma {:induction false} SolvePermuted(ops: seq<char>, p: seq<seq<nat>>, q: seq<seq<nat>>)
    requires |p| == |q| && forall i :: 0 <= i < |p| ==> multiset(p[i]) == multiset(q[i])
    ensures Solve(ops, p) == Solve(ops, q)
    decreases |ops|
  {
    if |ops| > 0 && |p| > 0 {
      ApplyOpPermutation(ops[0], p[0], q[0]);
      SolvePermuted(ops[1..], p[1..], q[1..]);
    }
  }

  /** Part one does not depend on the order of the rows. */
  lemma PartOneRowOrder(rows: seq<seq<nat>>, rows2: seq<seq<nat>>, ops: seq<char>)
    requires Wide(rows, |ops|) && multiset(rows) == multiset(rows2)
    ensures Wide(rows2, |ops|)
    ensures PartOne(rows, ops) == PartOne(rows2, ops)
  {
    forall r | 0 <= r < |rows2| ensures |ops| <= |rows2[r]| {
      assert rows2[r] in multiset(rows);
    }
    var p := seq(|ops|, i requires 0 <= i < |ops| => ColumnOf(rows, i));
    var q := seq(|ops|, i requires 0 <= i < |ops| => ColumnOf(rows2, i));
    forall i | 0 <= i < |ops| ensures multiset(p[i]) == multiset(q[i]) {
      ColumnOfPermutation(rows, rows2, i);
    }
    SolvePermuted(ops, p, q);
  }
}
