/** Model of src/grid.rs: a character grid collected into one position set
    per character, together with the largest coordinates seen. */
module Grid {
  import opened Wrappers

  type Pos = (int, int)

  datatype Grid = Grid(cells: map<char, set<Pos>>, bounds: Pos)

  /** `Grid::default()`. */
  const Empty: Grid := Grid(map[], (0, 0))

  /** The positions recorded for `c`; a missing entry reads as empty. */
  function Cells(g: Grid, c: char): set<Pos> {
    if c in g.cells then g.cells[c] else {}
  }

  /** `update`: record `pos` under `c`. */
  function Update(g: Grid, c: char, pos: Pos): (r: Grid)
    ensures r.bounds == g.bounds
    ensures c in r.cells && pos in r.cells[c]
    ensures forall d :: Cells(r, d) == Cells(g, d) + (if d == c then {pos} else {})
    ensures r.cells.Keys == g.cells.Keys + {c}
  {
    Grid(g.cells[c := Cells(g, c) + {pos}], g.bounds)
  }

  /** `update_bounds`: each coordinate of the bound grows to cover `pos`. */
  function UpdateBounds(g: Grid, pos: Pos): (r: Grid)
    ensures r.cells == g.cells
    ensures r.bounds.0 >= g.bounds.0 && r.bounds.0 >= pos.0
    ensures r.bounds.1 >= g.bounds.1 && r.bounds.1 >= pos.1
    ensures r.bounds.0 == g.bounds.0 || r.bounds.0 == pos.0
    ensures r.bounds.1 == g.bounds.1 || r.bounds.1 == pos.1
  {
    var x := if g.bounds.0 < pos.0 then pos.0 else g.bounds.0;
    var y := if g.bounds.1 < pos.1 then pos.1 else g.bounds.1;
    Grid(g.cells, (x, y))
  }

  /** Covering a position twice changes nothing the second time. */
  lemma UpdateBoundsIdempotent(g: Grid, pos: Pos)
    ensures UpdateBounds(UpdateBounds(g, pos), pos) == UpdateBounds(g, pos)
  {
  }

  /** `take_all`: the positions of `c` (empty when absent), with `c` removed. */
  function TakeAll(g: Grid, c: char): (r: (set<Pos>, Grid))
    ensures r.0 == Cells(g, c)
    ensures c !in r.1.cells && r.1.bounds == g.bounds
    ensures forall d :: d != c ==> Cells(r.1, d) == Cells(g, d)
  {
    (Cells(g, c), Grid(g.cells - {c}, g.bounds))
  }

  /** A second `take_all` of the same character finds nothing. */
  lemma TakeAllTwice(g: Grid, c: char)
    ensures TakeAll(TakeAll(g, c).1, c).0 == {}
    ensures TakeAll(TakeAll(g, c).1, c).1 == TakeAll(g, c).1
  {
  }

  /** `take_one`: the single position of `c`, with `c` removed; a missing
      character or more than one position panics in the source. */
  function TakeOne(g: Grid, c: char): (r: (Pos, Grid))
    requires c in g.cells && |g.cells[c]| == 1
    ensures g.cells[c] == {r.0}
    ensures r.1 == TakeAll(g, c).1
  {
    var p :| p in g.cells[c];
    assert |g.cells[c] - {p}| == 0;
    assert g.cells[c] == {p} by {
      forall q | q in g.cells[c] ensures q == p {
        assert q !in g.cells[c] - {p};
      }
    }
    (p, Grid(g.cells - {c}, g.bounds))
  }

  /** A cell of the input: row y, column x. */
  predicate IsCell<T>(rows: seq<seq<T>>, y: int, x: int) {
    0 <= y < |rows| && 0 <= x < |rows[y]|
  }

  /** The cells scanned before (x0, y0) in row-major order. */
  predicate Before(y0: int, x0: int, y: int, x: int) {
    y < y0 || (y == y0 && x < x0)
  }

  /** Where character c sits among the cells scanned before (x0, y0). */
  function SeenAt(rows: seq<seq<Option<char>>>, c: char, y0: int, x0: int): set<Pos> {
    set y, x | 0 <= y < |rows| && 0 <= x < |rows[y]| && Before(y0, x0, y, x) && rows[y][x] == Some(c) :: (x, y)
  }

  /** Where character c sits anywhere in the input. */
  function PlacesOf(rows: seq<seq<Option<char>>>, c: char): set<Pos> {
    set y, x | 0 <= y < |rows| && 0 <= x < |rows[y]| && rows[y][x] == Some(c) :: (x, y)
  }

  lemma SeenAtStep(rows: seq<seq<Option<char>>>, c: char, y0: int, x0: int)
    requires IsCell(rows, y0, x0)
    ensures SeenAt(rows, c, y0, x0 + 1) == SeenAt(rows, c, y0, x0) + (if rows[y0][x0] == Some(c) then {(x0, y0)} else {})
  {
    var a := SeenAt(rows, c, y0, x0 + 1);
    var b := SeenAt(rows, c, y0, x0) + (if rows[y0][x0] == Some(c) then {(x0, y0)} else {});
    forall p | p in a ensures p in b {
      var y, x :| 0 <= y < |rows| && 0 <= x < |rows[y]| && Before(y0, x0 + 1, y, x) && rows[y][x] == Some(c) && p == (x, y);
    }
  }

  lemma SeenAtNextRow(rows: seq<seq<Option<char>>>, c: char, y0: int)
    requires 0 <= y0 < |rows|
    ensures SeenAt(rows, c, y0, |rows[y0]|) == SeenAt(rows, c, y0 + 1, 0)
  {
    var a := SeenAt(rows, c, y0, |rows[y0]|);
    var b := SeenAt(rows, c, y0 + 1, 0);
    forall p | p in b ensures p in a {
      var y, x :| 0 <= y < |rows| && 0 <= x < |rows[y]| && Before(y0 + 1, 0, y, x) && rows[y][x] == Some(c) && p == (x, y);
    }
  }

  lemma SeenAtAll(rows: seq<seq<Option<char>>>, c: char)
    ensures SeenAt(rows, c, |rows|, 0) == PlacesOf(rows, c)
  {
  }

  /** The accumulation loop of `grid`: every cell widens the bounds, and
      every kept character (`Some`) is recorded at (column, row). */
  method Accumulate(rows: seq<seq<Option<char>>>) returns (g: Grid)
    ensures forall c :: Cells(g, c) == PlacesOf(rows, c)
    ensures forall y, x :: IsCell(rows, y, x) ==> x <= g.bounds.0 && y <= g.bounds.1
    ensures g.bounds.0 == 0 || exists y :: IsCell(rows, y, g.bounds.0)
    ensures g.bounds.1 == 0 || IsCell(rows, g.bounds.1, 0)
    ensures g.bounds.0 >= 0 && g.bounds.1 >= 0
  {
    g := Empty;
    ghost var wy := 0;
    var y := 0;
    while y < |rows|
      invariant 0 <= y <= |rows|
      invariant Scanned(rows, g, wy, y, 0)
    {
      g, wy := ScanRow(rows, g, wy, y);
      y := y + 1;
    }
    ScannedAll(rows, g, wy);
  }

  /** The inner loop of the accumulation: the cells of row y, left to right. */
  method ScanRow(rows: seq<seq<Option<char>>>, g0: Grid, ghost wy0: int, y: int) returns (g: Grid, ghost wy: int)
    requires 0 <= y < |rows| && Scanned(rows, g0, wy0, y, 0)
    ensures Scanned(rows, g, wy, y + 1, 0)
  {
    g, wy := g0, wy0;
    var row := rows[y];
    var x := 0;
    while x < |row|
      invariant 0 <= x <= |row|
      invariant Scanned(rows, g, wy, y, x)
    {
      var next := ScanCell(g, row[x], (x, y));
      wy := ScanCellStep(rows, g, wy, y, x);
      g := next;
      x := x + 1;
    }
    ScannedNextRow(rows, g, wy, y);
  }

  /** One iteration of the inner loop: widen the bounds, record a kept character. */
  function ScanCell(g: Grid, v: Option<char>, pos: Pos): Grid {
    var b := UpdateBounds(g, pos);
    if v.Some? then Update(b, v.value, pos) else b
  }

  /** The accumulation invariant after scanning the cells before (x, y):
      the recorded positions are those seen, the bounds cover every seen
      cell, and a non-zero bound is attained by some cell (row `wy` for
      the column bound). */
  ghost predicate Scanned(rows: seq<seq<Option<char>>>, g: Grid, wy: int, y: int, x: int) {
    && (forall c :: Cells(g, c) == SeenAt(rows, c, y, x))
    && (forall yy, xx :: IsCell(rows, yy, xx) && Before(y, x, yy, xx) ==> xx <= g.bounds.0 && yy <= g.bounds.1)
    && g.bounds.0 >= 0 && g.bounds.1 >= 0
    && (g.bounds.0 == 0 || (wy <= y && IsCell(rows, wy, g.bounds.0)))
    && (g.bounds.1 == 0 || (g.bounds.1 <= y && IsCell(rows, g.bounds.1, 0)))
  }

  /** Scanning cell (x, y) keeps the invariant; the row attaining the
      column bound moves to y when the cell widens it. */
  lemma ScanCellStep(rows: seq<seq<Option<char>>>, g: Grid, wy: int, y: int, x: int) returns (wy': int)
    requires IsCell(rows, y, x) && Scanned(rows, g, wy, y, x)
    ensures Scanned(rows, ScanCell(g, rows[y][x], (x, y)), wy', y, x + 1)
  {
    var r := ScanCell(g, rows[y][x], (x, y));
    wy' := if r.bounds.0 != g.bounds.0 then y else wy;
    forall c ensures Cells(r, c) == SeenAt(rows, c, y, x + 1) {
      SeenAtStep(rows, c, y, x);
    }
  }

  lemma ScannedNextRow(rows: seq<seq<Option<char>>>, g: Grid, wy: int, y: int)
    requires 0 <= y < |rows| && Scanned(rows, g, wy, y, |rows[y]|)
    ensures Scanned(rows, g, wy, y + 1, 0)
  {
    forall c ensures Cells(g, c) == SeenAt(rows, c, y + 1, 0) {
      SeenAtNextRow(rows, c, y);
    }
  }

  lemma ScannedAll(rows: seq<seq<Option<char>>>, g: Grid, wy: int)
    requires Scanned(rows, g, wy, |rows|, 0)
    ensures forall c :: Cells(g, c) == PlacesOf(rows, c)
    ensures forall y, x :: IsCell(rows, y, x) ==> x <= g.bounds.0 && y <= g.bounds.1
    ensures g.bounds.0 == 0 || exists y :: IsCell(rows, y, g.bounds.0)
    ensures g.bounds.1 == 0 || IsCell(rows, g.bounds.1, 0)
  {
    forall c ensures Cells(g, c) == PlacesOf(rows, c) {
      SeenAtAll(rows, c);
    }
    if g.bounds.0 != 0 {
      assert IsCell(rows, wy, g.bounds.0);
    }
  }

  /** The rows `grid_of(chars)` parses: an index into `chars` per cell. */
  predicate IndexRows(chars: seq<char>, rows: seq<seq<nat>>) {
    forall y, x :: 0 <= y < |rows| && 0 <= x < |rows[y]| ==> rows[y][x] < |chars|
  }

  /** `grid_of`: index 0, the first character, is never recorded. */
  function Kept(chars: seq<char>, rows: seq<seq<nat>>): (r: seq<seq<Option<char>>>)
    requires IndexRows(chars, rows)
    ensures |r| == |rows| && forall y :: 0 <= y < |rows| ==> |r[y]| == |rows[y]|
    ensures forall y, x :: IsCell(rows, y, x) ==> (r[y][x].Some? <==> rows[y][x] > 0)
    ensures forall y, x :: IsCell(rows, y, x) && rows[y][x] > 0 ==> r[y][x] == Some(chars[rows[y][x]])
  {
    seq(|rows|, y requires 0 <= y < |rows| =>
      seq(|rows[y]|, x requires 0 <= x < |rows[y]| =>
        if rows[y][x] > 0 then Some(chars[rows[y][x]]) else None))
  }

  /** `grid_of`: a position is recorded under c exactly when its cell holds
      a non-zero index naming c. */
  method GridOf(chars: seq<char>, rows: seq<seq<nat>>) returns (g: Grid)
    requires IndexRows(chars, rows)
    ensures forall c, x, y :: (x, y) in Cells(g, c) <==> IsCell(rows, y, x) && rows[y][x] > 0 && chars[rows[y][x]] == c
    ensures forall y, x :: IsCell(rows, y, x) ==> x <= g.bounds.0 && y <= g.bounds.1
  {
    var kept := Kept(chars, rows);
    g := Accumulate(kept);
    forall c, x, y ensures (x, y) in Cells(g, c) <==> IsCell(rows, y, x) && rows[y][x] > 0 && chars[rows[y][x]] == c {
      assert Cells(g, c) == PlacesOf(kept, c);
      if IsCell(rows, y, x) && rows[y][x] > 0 && chars[rows[y][x]] == c {
        assert kept[y][x] == Some(c);
      }
    }
    forall y, x | IsCell(rows, y, x) ensures x <= g.bounds.0 && y <= g.bounds.1 {
      assert IsCell(kept, y, x);
    }
  }
}
