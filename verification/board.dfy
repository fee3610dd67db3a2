/** Cells of the 20 x 20 grid, the four headings, and food placement. */
module Board {
  import opened GameConfig

  /** A grid cell; `y` grows downwards, as on the canvas. */
  datatype Pos = Pos(x: int, y: int)

  datatype Direction = Up | Down | Left | Right

  function Opposite(d: Direction): (o: Direction)
    ensures o != d
  {
    match d
    case Up => Down
    case Down => Up
    case Left => Right
    case Right => Left
  }

  function Abs(n: int): nat {
    if n < 0 then -n else n
  }

  /** The neighbouring cell one step in direction `d`: up is towards the top
      row (smaller `y`), left towards the first column (smaller `x`). */
  function Advance(p: Pos, d: Direction): (q: Pos)
    ensures Abs(q.x - p.x) + Abs(q.y - p.y) == 1
    ensures d == Left || d == Right ==> q.y == p.y
    ensures d == Up || d == Down ==> q.x == p.x
    ensures d == Up ==> q.y < p.y
    ensures d == Down ==> q.y > p.y
    ensures d == Left ==> q.x < p.x
    ensures d == Right ==> q.x > p.x
  {
    match d
    case Up => Pos(p.x, p.y - 1)
    case Down => Pos(p.x, p.y + 1)
    case Left => Pos(p.x - 1, p.y)
    case Right => Pos(p.x + 1, p.y)
  }

  /** Stepping back the opposite way returns to the starting cell, and no two
      headings lead to the same cell. */
  lemma AdvanceOppositeUndoes(p: Pos, d: Direction, e: Direction)
    ensures Opposite(Opposite(d)) == d
    ensures Advance(Advance(p, d), Opposite(d)) == p
    ensures Advance(p, d) == Advance(p, e) ==> d == e
  {
  }

  predicate InBounds(p: Pos) {
    0 <= p.x < Cols && 0 <= p.y < Rows
  }

  /** `Array.prototype.some` with coordinate-wise equality: does any segment lie on `p`? */
  function Occupies(cells: seq<Pos>, p: Pos): (b: bool)
    ensures b <==> p in cells
  {
    if |cells| == 0 then false
    else cells[0] == p || Occupies(cells[1..], p)
  }

  predicate AllInBounds(cells: seq<Pos>) {
    forall i :: 0 <= i < |cells| ==> InBounds(cells[i])
  }

  predicate Distinct(cells: seq<Pos>) {
    forall i, j :: 0 <= i < j < |cells| ==> cells[i] != cells[j]
  }

  /** A value of `Math.random()`: a real in [0, 1). */
  type Unit = r: real | 0.0 <= r < 1.0

  /** `Math.floor(Math.random() * n)`. */
  function Scale(u: Unit, n: nat): (k: int)
    ensures n > 0 ==> 0 <= k < n
  {
    UnitScaleBounds(u, n);
    (u * n as real).Floor
  }

  lemma UnitScaleBounds(u: Unit, n: nat)
    ensures 0.0 <= u * n as real
    ensures n > 0 ==> u * n as real < n as real
  {
    var m := n as real;
    assert 0.0 <= u * m;
    if n > 0 {
      assert (1.0 - u) * m > 0.0;
      assert m - u * m == (1.0 - u) * m;
    }
  }

  /** `generateFood`: a cell chosen from two random draws. It does not look at
      the snake, so food may appear on top of it. */
  function GenerateFood(rx: Unit, ry: Unit): (p: Pos)
    ensures InBounds(p)
  {
    Pos(Scale(rx, Cols), Scale(ry, Rows))
  }

  /** Every cell of the board, occupied or not, is produced by some pair of draws. */
  lemma GenerateFoodReachesEveryCell(p: Pos)
    requires InBounds(p)
    ensures exists rx: Unit, ry: Unit :: GenerateFood(rx, ry) == p
  {
    var rx: Unit := p.x as real / Cols as real;
    var ry: Unit := p.y as real / Rows as real;
    assert Scale(rx, Cols) == p.x;
    assert Scale(ry, Rows) == p.y;
    assert GenerateFood(rx, ry) == p;
  }
}
