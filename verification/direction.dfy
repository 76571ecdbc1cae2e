/** Model of src/direction.rs: grid positions and the four compass directions.
    Positions are (x, y) with y growing southwards. */
module Direction {

  type Pos = (int, int)

  datatype Direction = North | South | West | East

  /** `pos_add`: component-wise sum. */
  function PosAdd(p1: Pos, p2: Pos): (r: Pos)
    ensures r.0 - p1.0 == p2.0 && r.1 - p1.1 == p2.1
  {
    (p1.0 + p2.0, p1.1 + p2.1)
  }

  /** The twelve characters `from_char` accepts; any other character panics. */
  predicate IsDirectionChar(c: char) {
    c in {'^', 'N', 'U', 'v', 'S', 'D', '<', 'W', 'L', '>', 'E', 'R'}
  }

  function FromChar(c: char): (d: Direction)
    requires IsDirectionChar(c)
    ensures d == North <==> c in {'^', 'N', 'U'}
    ensures d == South <==> c in {'v', 'S', 'D'}
    ensures d == West <==> c in {'<', 'W', 'L'}
    ensures d == East <==> c in {'>', 'E', 'R'}
  {
    if c == '^' || c == 'N' || c == 'U' then North
    else if c == 'v' || c == 'S' || c == 'D' then South
    else if c == '<' || c == 'W' || c == 'L' then West
    else East
  }

  function ToChar(d: Direction): char {
    match d
    case North => '^'
    case South => 'v'
    case West => '<'
    case East => '>'
  }

  function ToCharUdlr(d: Direction): char {
    match d
    case North => 'U'
    case South => 'D'
    case West => 'L'
    case East => 'R'
  }

  function ToCharNswe(d: Direction): char {
    match d
    case North => 'N'
    case South => 'S'
    case West => 'W'
    case East => 'E'
  }

  /** Each of the three character sets round-trips through `from_char`, and
      the three encodings never collide. */
  lemma CharRoundTrips(d: Direction)
    ensures IsDirectionChar(ToChar(d)) && FromChar(ToChar(d)) == d
    ensures IsDirectionChar(ToCharUdlr(d)) && FromChar(ToCharUdlr(d)) == d
    ensures IsDirectionChar(ToCharNswe(d)) && FromChar(ToCharNswe(d)) == d
  {
  }

  /** `to_char` is injective, so it can be decoded. */
  lemma ToCharInjective(d1: Direction, d2: Direction)
    ensures ToChar(d1) == ToChar(d2) ==> d1 == d2
    ensures ToCharUdlr(d1) == ToCharUdlr(d2) ==> d1 == d2
    ensures ToCharNswe(d1) == ToCharNswe(d2) ==> d1 == d2
  {
  }

  function ForwardNFrom(d: Direction, pos: Pos, n: int): (r: Pos)
    ensures (d == North || d == South) ==> r.0 == pos.0 && (r.1 - pos.1 == n || pos.1 - r.1 == n)
    ensures (d == West || d == East) ==> r.1 == pos.1 && (r.0 - pos.0 == n || pos.0 - r.0 == n)
  {
    match d
    case North => (pos.0, pos.1 - n)
    case South => (pos.0, pos.1 + n)
    case West => (pos.0 - n, pos.1)
    case East => (pos.0 + n, pos.1)
  }

  function ForwardFrom(d: Direction, pos: Pos): Pos {
    ForwardNFrom(d, pos, 1)
  }

  function TurnLeft(d: Direction): Direction {
    match d
    case North => West
    case South => East
    case East => North
    case West => South
  }

  function TurnRight(d: Direction): Direction {
    match d
    case North => East
    case South => West
    case East => South
    case West => North
  }

  function Invert(d: Direction): Direction {
    match d
    case North => South
    case South => North
    case West => East
    case East => West
  }

  /** `impl Add<&Pos> for Direction`: one step forward. */
  function Add(d: Direction, pos: Pos): Pos {
    ForwardFrom(d, pos)
  }

  /** `impl Sub<&Pos> for Direction`: one step backwards. */
  function Sub(d: Direction, pos: Pos): Pos {
    ForwardFrom(Invert(d), pos)
  }

  /** The turns are mutually inverse and four of either are the identity. */
  lemma TurnAlgebra(d: Direction)
    ensures TurnLeft(TurnRight(d)) == d && TurnRight(TurnLeft(d)) == d
    ensures TurnRight(TurnRight(TurnRight(TurnRight(d)))) == d
    ensures TurnLeft(TurnLeft(TurnLeft(TurnLeft(d)))) == d
    ensures TurnLeft(d) != d && TurnRight(d) != d
  {
  }

  /** `invert` is an involution without fixed points, equal to two turns either way. */
  lemma InvertAlgebra(d: Direction)
    ensures Invert(Invert(d)) == d && Invert(d) != d
    ensures Invert(d) == TurnRight(TurnRight(d)) == TurnLeft(TurnLeft(d))
  {
  }

  /** Stepping n forward and then n along the inverse returns to the start;
      exactly one coordinate moves, by n. */
  lemma ForwardThenBack(d: Direction, pos: Pos, n: int)
    ensures ForwardNFrom(Invert(d), ForwardNFrom(d, pos, n), n) == pos
    ensures ForwardNFrom(d, pos, n) == ForwardNFrom(Invert(d), pos, -n)
  {
  }

  /** `d + &(d - &p) == p` and `d - &(d + &p) == p`. */
  lemma AddSubCancel(d: Direction, p: Pos)
    ensures Add(d, Sub(d, p)) == p
    ensures Sub(d, Add(d, p)) == p
  {
  }

  /** `pos_in_grid(m, n)`: the positions (x, y) with 0 <= x < m and 0 <= y < n,
      rows (y) outermost. A non-positive bound gives an empty range. */
  function PosInGrid(m: int, n: int): (r: seq<Pos>)
    decreases if n <= 0 then 0 else n
  {
    if n <= 0 then [] else PosInGrid(m, n - 1) + Row(m, n - 1)
  }

  /** `(0..m).map(|x| (x, y))`. */
  function Row(m: int, y: int): (r: seq<Pos>)
    ensures |r| == if m <= 0 then 0 else m
    ensures forall x :: 0 <= x < |r| ==> r[x] == (x, y)
  {
    if m <= 0 then [] else seq(m, x => (x, y))
  }

  /** Row-major layout: the grid has m*n entries and (x, y) sits at y*m + x. */
  lemma PosInGridLayout(m: nat, n: nat)
    ensures |PosInGrid(m, n)| == m * n
    ensures forall x, y :: 0 <= x < m && 0 <= y < n ==> PosInGrid(m, n)[y * m + x] == (x, y)
  {
    PosInGridLen(m, n);
    forall x, y | 0 <= x < m && 0 <= y < n
      ensures y * m + x < |PosInGrid(m, n)| && PosInGrid(m, n)[y * m + x] == (x, y)
    {
      PosInGridAt(m, n, x, y);
    }
  }

  lemma {:induction false} PosInGridLen(m: nat, n: nat)
    ensures |PosInGrid(m, n)| == m * n
  {
    if n > 0 {
      PosInGridLen(m, n - 1);
      MulSucc(n - 1, m);
    }
  }

  /** The cell (x, y) of the grid sits at index y*m + x. */
  lemma {:induction false} PosInGridAt(m: nat, n: nat, x: nat, y: nat)
    requires x < m && y < n
    ensures y * m + x < |PosInGrid(m, n)| && PosInGrid(m, n)[y * m + x] == (x, y)
  {
    PosInGridLen(m, n - 1);
    PosInGridLen(m, n);
    var prev := PosInGrid(m, n - 1);
    assert PosInGrid(m, n) == prev + Row(m, n - 1);
    if y < n - 1 {
      RowStartBelow(x, y, n - 1, m);
      PosInGridAt(m, n - 1, x, y);
    } else {
      assert y * m + x == |prev| + x;
    }
  }

  lemma MulSucc(a: nat, m: nat)
    ensures (a + 1) * m == a * m + m && m * (a + 1) == a * m + m
  {
  }

  /** A cell of an earlier row lies before row `b`. */
  lemma RowStartBelow(x: nat, y: nat, b: nat, m: nat)
    requires x < m && y < b
    ensures y * m + x < b * m
  {
    MulSucc(y, m);
    MulMono(y + 1, b, m);
  }

  lemma MulMono(a: nat, b: nat, m: nat)
    requires a <= b
    ensures a * m <= b * m
  {
  }

  /** Membership: a position is in the grid exactly when it is within the bounds. */
  lemma {:induction false} PosInGridMembers(m: int, n: int, p: Pos)
    ensures p in PosInGrid(m, n) <==> 0 <= p.0 < m && 0 <= p.1 < n
    decreases if n <= 0 then 0 else n
  {
    if n > 0 {
      PosInGridMembers(m, n - 1, p);
      if p in Row(m, n - 1) {
        var x :| 0 <= x < |Row(m, n - 1)| && Row(m, n - 1)[x] == p;
      }
      if 0 <= p.0 < m && p.1 == n - 1 {
        assert Row(m, n - 1)[p.0] == p;
      }
    }
  }
}
