/** Grid geometry of the snake board: cells, directions and one step of
    toroidal movement on the hard-coded 10x10 grid. */
module Grid {

  /** Side length of the board; the movement rule and the game loop both fix it at 10. */
  const GridSize: int := 10

  /** A board cell, `first` being the row and `second` the column, as in a C++ pair. */
  datatype Cell = Cell(first: int, second: int)

  /** The value placement returns when no cell is free. */
  const NoCell: Cell := Cell(-1, -1)

  /** The four headings the input side can set. */
  datatype Direction = Right | Left | Up | Down

  predicate InBounds(c: Cell, size: int)
  {
    0 <= c.first < size && 0 <= c.second < size
  }

  lemma NoCellOffBoard(size: int)
    ensures !InBounds(NoCell, size)
  {
  }

  /** C++ `%` on int: the remainder truncates toward zero, so it takes the sign of `a`. */
  function CRem(a: int, n: int): (r: int)
    requires n > 0
    ensures a >= 0 ==> r == a % n
    ensures a < 0 ==> -n < r <= 0
    ensures a < 0 ==> (a - r) % n == 0
  {
    if a >= 0 then a % n
    else
      TruncatedRemainder(a, n);
      -((-a) % n)
  }

  /** For a negative operand, `a` less the truncated remainder is a multiple of `n`. */
  lemma TruncatedRemainder(a: int, n: int)
    requires a < 0 && n > 0
    ensures (a + (-a) % n) % n == 0
  {
    var q := (-a) / n;
    assert -a == q * n + (-a) % n;
    assert a + (-a) % n == (-q) * n;
    MultipleModulo(-q, n);
  }

  lemma MultipleModulo(k: int, n: int)
    requires n > 0
    ensures (k * n) % n == 0
  {
    var x := k * n;
    var q, m := x / n, x % n;
    assert (k - q) * n == m;
    if k - q >= 1 {
      AtLeastOnce(k - q, n);
    } else if k - q <= -1 {
      AtLeastOnce(q - k, n);
    }
  }

  lemma AtLeastOnce(j: int, n: int)
    requires j >= 1 && n > 0
    ensures j * n >= n
  {
  }

  /** Row and column offsets of one step in direction `d`, before wrapping. */
  function RowDelta(d: Direction): int
  {
    match d
    case Down => 1
    case Up => -1
    case _ => 0
  }

  function ColDelta(d: Direction): int
  {
    match d
    case Right => 1
    case Left => -1
    case _ => 0
  }

  function Opposite(d: Direction): Direction
  {
    match d
    case Right => Left
    case Left => Right
    case Up => Down
    case Down => Up
  }

  /** The cell the head moves to. On the board it is the neighbour in direction
      `d` taken modulo the grid size: exactly one coordinate moves by one, and the
      result is never the starting cell. */
  function NextHead(current: Cell, d: Direction): (next: Cell)
    ensures InBounds(current, GridSize) ==>
      && InBounds(next, GridSize)
      && next == Cell((current.first + RowDelta(d)) % GridSize,
                      (current.second + ColDelta(d)) % GridSize)
      && next != current
    ensures d == Right || d == Left ==> next.first == current.first
    ensures d == Up || d == Down ==> next.second == current.second
  {
    match d
    case Right => Cell(current.first, CRem(current.second + 1, 10))
    case Left => Cell(current.first, if current.second == 0 then 9 else current.second - 1)
    case Down => Cell(CRem(current.first + 1, 10), current.second)
    case Up => Cell(if current.first == 0 then 9 else current.first - 1, current.second)
  }

  /** Moving back the opposite way undoes a step: 'l' undoes 'r' and 'u' undoes 'd'. */
  lemma OppositeUndoes(c: Cell, d: Direction)
    requires InBounds(c, GridSize)
    ensures NextHead(NextHead(c, d), Opposite(d)) == c
  {
  }

  /** Going right, down, left and up in turn comes back to the start. */
  lemma FullCycle(c: Cell)
    requires InBounds(c, GridSize)
    ensures NextHead(NextHead(NextHead(NextHead(c, Right), Down), Left), Up) == c
  {
  }

  /** Away from the edge it is reached by, the step is the plain neighbour:
      the situation the direction tests check. */
  lemma InteriorStep(c: Cell, d: Direction)
    requires InBounds(c, GridSize)
    requires InBounds(Cell(c.first + RowDelta(d), c.second + ColDelta(d)), GridSize)
    ensures NextHead(c, d) == Cell(c.first + RowDelta(d), c.second + ColDelta(d))
  {
  }

  /** At the edge the step wraps to the opposite side, so the unwrapped
      neighbour is not what the head reaches there. */
  lemma EdgeWraps(k: int)
    requires 0 <= k < GridSize
    ensures NextHead(Cell(k, 9), Right) == Cell(k, 0)
    ensures NextHead(Cell(k, 0), Left) == Cell(k, 9)
    ensures NextHead(Cell(9, k), Down) == Cell(0, k)
    ensures NextHead(Cell(0, k), Up) == Cell(9, k)
  {
  }
}
