/** Placement of food and poison: enumerate the size x size grid in row-major
    order, keep the cells that are free, and pick one of them with an index
    supplied by the caller (the value of `rand()` in snake.h). */
module Placement {
  import opened Grid

  datatype Option<T> = None | Some(value: T)

  /** A cell placement may use: not on the snake and, when a food cell is given
      (poison placement), not that cell either. */
  predicate IsFree(c: Cell, snake: seq<Cell>, food: Option<Cell>)
  {
    (food.None? || c != food.value) && c !in snake
  }

  /** The free cells (row, 0), ..., (row, n - 1), left to right. Naming `snake`
      in the decreases clause (`n` alone already decreases) keeps the verifier
      from evaluating the whole grid whenever the width is a literal. */
  function FreeInRow(row: int, n: int, snake: seq<Cell>, food: Option<Cell>): (r: seq<Cell>)
    ensures |r| <= if n <= 0 then 0 else n
    decreases n, snake
  {
    if n <= 0 then []
    else FreeInRow(row, n - 1, snake, food)
         + (if IsFree(Cell(row, n - 1), snake, food) then [Cell(row, n - 1)] else [])
  }

  /** The free cells of rows 0, ..., m - 1 of a grid `width` wide, row by row. */
  function FreeInRows(width: int, m: int, snake: seq<Cell>, food: Option<Cell>): (r: seq<Cell>)
    ensures m >= 0 && width >= 0 ==> |r| <= m * width
    decreases m, snake
  {
    if m <= 0 then []
    else FreeInRows(width, m - 1, snake, food) + FreeInRow(m - 1, width, snake, food)
  }

  /** Every free cell of the size x size grid, in row-major order; never more
      than the size * size cells snake.h reserves room for. */
  function FreeCells(size: int, snake: seq<Cell>, food: Option<Cell>): (r: seq<Cell>)
    ensures size >= 0 ==> |r| <= size * size
  {
    FreeInRows(size, size, snake, food)
  }

  /** The chosen cell: the sentinel when nothing is free, otherwise the free
      cell at the caller's index reduced modulo the number of free cells. */
  function Pick(free: seq<Cell>, rnd: nat): (c: Cell)
    ensures |free| == 0 ==> c == NoCell
    ensures |free| > 0 ==> c in free
  {
    if |free| == 0 then NoCell else free[rnd % |free|]
  }

  /** Cell `a` comes strictly before cell `b` in row-major order. */
  predicate Precedes(a: Cell, b: Cell)
  {
    a.first < b.first || (a.first == b.first && a.second < b.second)
  }

  /** Each cell comes strictly before the next one in row-major order. */
  predicate RowMajorSorted(s: seq<Cell>)
  {
    forall k :: 0 < k < |s| ==> Precedes(s[k - 1], s[k])
  }

  lemma {:induction false} FreeInRowMembers(row: int, n: int, snake: seq<Cell>, food: Option<Cell>, c: Cell)
    ensures c in FreeInRow(row, n, snake, food)
        <==> c.first == row && 0 <= c.second < n && IsFree(c, snake, food)
    decreases n
  {
    if n > 0 {
      var prefix := FreeInRow(row, n - 1, snake, food);
      var last := if IsFree(Cell(row, n - 1), snake, food) then [Cell(row, n - 1)] else [];
      assert c in FreeInRow(row, n, snake, food) <==> c in prefix || c in last;
      FreeInRowMembers(row, n - 1, snake, food, c);
      assert c in last <==> c == Cell(row, n - 1) && IsFree(c, snake, food);
    }
  }

  lemma {:induction false} FreeInRowsMembers(width: int, m: int, snake: seq<Cell>, food: Option<Cell>, c: Cell)
    ensures c in FreeInRows(width, m, snake, food)
        <==> 0 <= c.first < m && 0 <= c.second < width && IsFree(c, snake, food)
    decreases m
  {
    if m > 0 {
      var above := FreeInRows(width, m - 1, snake, food);
      var row := FreeInRow(m - 1, width, snake, food);
      assert c in FreeInRows(width, m, snake, food) <==> c in above || c in row;
      FreeInRowsMembers(width, m - 1, snake, food, c);
      FreeInRowMembers(m - 1, width, snake, food, c);
    }
  }

  /** A cell is listed exactly when it is on the board and free. */
  lemma FreeCellsMembers(size: int, snake: seq<Cell>, food: Option<Cell>, c: Cell)
    ensures c in FreeCells(size, snake, food) <==> InBounds(c, size) && IsFree(c, snake, food)
  {
    FreeInRowsMembers(size, size, snake, food, c);
  }

  lemma SortedConcat(a: seq<Cell>, b: seq<Cell>)
    requires RowMajorSorted(a) && RowMajorSorted(b)
    requires |a| > 0 && |b| > 0 ==> Precedes(a[|a| - 1], b[0])
    ensures RowMajorSorted(a + b)
  {
    var s := a + b;
    forall k | 0 < k < |s|
      ensures Precedes(s[k - 1], s[k])
    {
      if k < |a| {
        assert s[k - 1] == a[k - 1] && s[k] == a[k];
      } else if k > |a| {
        assert s[k - 1] == b[k - 1 - |a|] && s[k] == b[k - |a|];
      } else {
        assert s[k - 1] == a[|a| - 1] && s[k] == b[0];
      }
    }
  }

  lemma {:induction false} FreeInRowSorted(row: int, n: int, snake: seq<Cell>, food: Option<Cell>)
    ensures RowMajorSorted(FreeInRow(row, n, snake, food))
    decreases n
  {
    if n > 0 {
      var prefix := FreeInRow(row, n - 1, snake, food);
      var last := if IsFree(Cell(row, n - 1), snake, food) then [Cell(row, n - 1)] else [];
      assert RowMajorSorted(prefix + last) by {
        FreeInRowSorted(row, n - 1, snake, food);
        if |prefix| > 0 {
          FreeInRowMembers(row, n - 1, snake, food, prefix[|prefix| - 1]);
        }
        SortedConcat(prefix, last);
      }
    }
  }

  lemma {:induction false} FreeInRowsSorted(width: int, m: int, snake: seq<Cell>, food: Option<Cell>)
    ensures RowMajorSorted(FreeInRows(width, m, snake, food))
    decreases m
  {
    if m > 0 {
      FreeInRowsSorted(width, m - 1, snake, food);
      FreeInRowSorted(m - 1, width, snake, food);
      AppendRowSorted(FreeInRows(width, m - 1, snake, food), FreeInRow(m - 1, width, snake, food),
                      width, m - 1, snake, food);
    }
  }

  lemma AppendRowSorted(above: seq<Cell>, row: seq<Cell>, width: int, r: int, snake: seq<Cell>, food: Option<Cell>)
    requires above == FreeInRows(width, r, snake, food) && row == FreeInRow(r, width, snake, food)
    requires RowMajorSorted(above) && RowMajorSorted(row)
    ensures RowMajorSorted(above + row)
  {
    if |above| > 0 && |row| > 0 {
      FreeInRowsMembers(width, r, snake, food, above[|above| - 1]);
      FreeInRowMembers(r, width, snake, food, row[0]);
    }
    SortedConcat(above, row);
  }

  /** In a row-major sorted sequence every earlier cell precedes every later one. */
  lemma {:induction false} SortedPrecedes(s: seq<Cell>, i: int, j: int)
    requires RowMajorSorted(s)
    requires 0 <= i < j < |s|
    ensures Precedes(s[i], s[j])
    decreases j - i
  {
    if i + 1 < j {
      SortedPrecedes(s, i, j - 1);
    }
  }

  /** The free cells come in strict row-major order, so none is listed twice. */
  lemma FreeCellsRowMajor(size: int, snake: seq<Cell>, food: Option<Cell>)
    ensures RowMajorSorted(FreeCells(size, snake, food))
    ensures forall i, j :: 0 <= i < j < |FreeCells(size, snake, food)| ==>
              FreeCells(size, snake, food)[i] != FreeCells(size, snake, food)[j]
  {
    var free := FreeCells(size, snake, food);
    FreeInRowsSorted(size, size, snake, food);
    forall i, j | 0 <= i < j < |free|
      ensures free[i] != free[j]
    {
      SortedPrecedes(free, i, j);
    }
  }

  /** Whatever the index, the pick is the sentinel exactly when no board cell
      is free, and otherwise a free board cell. */
  lemma PickIsFree(size: int, snake: seq<Cell>, food: Option<Cell>, rnd: nat)
    ensures var r := Pick(FreeCells(size, snake, food), rnd);
      && (r == NoCell <==> forall c :: InBounds(c, size) ==> !IsFree(c, snake, food))
      && (r != NoCell ==> InBounds(r, size) && IsFree(r, snake, food))
  {
    var free := FreeCells(size, snake, food);
    var r := Pick(free, rnd);
    NoCellOffBoard(size);
    if |free| == 0 {
      forall c | InBounds(c, size)
        ensures !IsFree(c, snake, food)
      {
        FreeCellsMembers(size, snake, food, c);
      }
    } else {
      assert r in free;
      FreeCellsMembers(size, snake, food, r);
      assert r != NoCell;
    }
  }

  /** When exactly one board cell is free, every index picks that cell. */
  lemma PickSingleFree(size: int, snake: seq<Cell>, food: Option<Cell>, c: Cell, rnd: nat)
    requires InBounds(c, size) && IsFree(c, snake, food)
    requires forall d :: InBounds(d, size) && IsFree(d, snake, food) ==> d == c
    ensures Pick(FreeCells(size, snake, food), rnd) == c
  {
    var free := FreeCells(size, snake, food);
    FreeCellsMembers(size, snake, food, c);
    FreeCellsRowMajor(size, snake, food);
    forall k | 0 <= k < |free|
      ensures free[k] == c
    {
      FreeCellsMembers(size, snake, food, free[k]);
    }
  }

  /** Builds the free-cell list with the two nested loops of the C++ code. */
  method CollectFreeCells(size: int, snake: seq<Cell>, food: Option<Cell>) returns (cells: seq<Cell>)
    ensures cells == FreeCells(size, snake, food)
  {
    cells := [];
    var i := 0;
    while i < size
      invariant 0 <= i <= if size < 0 then 0 else size
      invariant cells == FreeInRows(size, i, snake, food)
    {
      var j := 0;
      while j < size
        invariant 0 <= j <= size
        invariant cells == FreeInRows(size, i, snake, food) + FreeInRow(i, j, snake, food)
      {
        var cell := Cell(i, j);
        if (food.None? || cell != food.value) && cell !in snake {
          cells := cells + [cell];
        }
        j := j + 1;
      }
      i := i + 1;
    }
  }

  /** Places food on a free cell of the size x size board, or returns the
      sentinel (-1, -1) when the snake covers the whole board. */
  method GenerateFood(size: int, snake: seq<Cell>, rnd: nat) returns (food: Cell)
    ensures food == Pick(FreeCells(size, snake, None), rnd)
    ensures food == NoCell <==> forall c :: InBounds(c, size) ==> c in snake
    ensures food != NoCell ==> InBounds(food, size) && food !in snake
  {
    var freeCells := CollectFreeCells(size, snake, None);
    if |freeCells| == 0 {
      food := NoCell;
    } else {
      var idx := rnd % |freeCells|;
      food := freeCells[idx];
    }
    PickIsFree(size, snake, None, rnd);
  }

  /** Places poison on a cell that is neither on the snake nor the food cell,
      or returns the sentinel (-1, -1) when there is none. */
  method GeneratePoison(size: int, snake: seq<Cell>, food: Cell, rnd: nat) returns (poison: Cell)
    ensures poison == Pick(FreeCells(size, snake, Some(food)), rnd)
    ensures poison == NoCell <==> forall c :: InBounds(c, size) ==> c in snake || c == food
    ensures poison != NoCell ==> InBounds(poison, size) && poison !in snake && poison != food
  {
    var freeCells := CollectFreeCells(size, snake, Some(food));
    if |freeCells| == 0 {
      poison := NoCell;
    } else {
      var idx := rnd % |freeCells|;
      poison := freeCells[idx];
    }
    PickIsFree(size, snake, Some(food), rnd);
  }

  /** The snake covering all four cells of a 2 x 2 board leaves no room for food. */
  lemma FullBoardGivesSentinel(rnd: nat)
    ensures Pick(FreeCells(2, [Cell(0, 0), Cell(0, 1), Cell(1, 0), Cell(1, 1)], None), rnd) == NoCell
  {
    var snake := [Cell(0, 0), Cell(0, 1), Cell(1, 0), Cell(1, 1)];
    PickIsFree(2, snake, None, rnd);
    forall c | InBounds(c, 2)
      ensures !IsFree(c, snake, None)
    {
      assert c.first == 0 || c.first == 1;
      assert c.second == 0 || c.second == 1;
    }
  }

  /** With all but the corner (2, 2) of a 3 x 3 board covered, food lands on the corner. */
  lemma NearlyFullBoardGivesLastCell(rnd: nat)
    ensures Pick(FreeCells(3, [Cell(0, 0), Cell(0, 1), Cell(0, 2), Cell(1, 0), Cell(1, 1),
                               Cell(1, 2), Cell(2, 0), Cell(2, 1)], None), rnd) == Cell(2, 2)
  {
    var snake := [Cell(0, 0), Cell(0, 1), Cell(0, 2), Cell(1, 0), Cell(1, 1),
                  Cell(1, 2), Cell(2, 0), Cell(2, 1)];
    forall d | InBounds(d, 3) && IsFree(d, snake, None)
      ensures d == Cell(2, 2)
    {
      assert d.first == 0 || d.first == 1 || d.first == 2;
      assert d.second == 0 || d.second == 1 || d.second == 2;
    }
    PickSingleFree(3, snake, None, Cell(2, 2), rnd);
  }
}
