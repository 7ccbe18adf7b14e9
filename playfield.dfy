/**
 * The playfield of the game: a flat board of Width x Height occupancy counts,
 * cell (y, x) at index y * Width + x.  Column 0, column Width - 1 and the
 * bottom row Height - 1 are a permanent border of occupied cells.  This module
 * also gives the reference definition of line clearing: one full row at a
 * time (ClearRow) and the top-to-bottom pass over the board (Scan).
 */
module Playfield {

  const Width: int := 12
  const Height: int := 19
  const Size: int := Width * Height

  /** Row and column of a flat board index. */
  function Row(j: int): (y: int) { j / Width }
  function Col(j: int): (x: int) { j % Width }

  /** An index built from a row and a column decodes back to them. */
  lemma IndexDecode(y: int, x: int)
    requires 0 <= x < Width
    ensures Row(y * Width + x) == y && Col(y * Width + x) == x
  {
  }

  /** The floor row is the last Width indices. */
  lemma FloorIndex(j: int)
    requires 0 <= j < Size
    ensures Row(j) == Height - 1 <==> Size - Width <= j
  {
  }

  /** The side cells of row i are the first and the last index of that row. */
  lemma SideIndex(j: int, i: int)
    requires 0 <= j < Size
    ensures Row(j) == i && !InteriorCol(j) <==> j == i * Width || j == i * Width + Width - 1
  {
    if j == i * Width || j == i * Width + Width - 1 {
      IndexDecode(i, 0);
      IndexDecode(i, Width - 1);
    }
  }

  /** Cell (y, x) of a board. */
  function Cell(b: seq<int>, y: int, x: int): (v: int)
    requires |b| == Size && 0 <= y < Height && 0 <= x < Width
  {
    b[y * Width + x]
  }

  /** The border: the two side columns and the floor row. */
  predicate IsBorder(j: int)
  {
    Col(j) == 0 || Col(j) == Width - 1 || Row(j) == Height - 1
  }

  /** A playable column, strictly between the two side borders. */
  predicate InteriorCol(j: int)
  {
    1 <= Col(j) <= Width - 2
  }

  /** A settled board: every cell empty (0) or occupied (1), every border cell occupied. */
  ghost predicate WellFormed(b: seq<int>)
  {
    |b| == Size &&
    (forall j :: 0 <= j < Size ==> b[j] == 0 || b[j] == 1) &&
    (forall j :: 0 <= j < Size && IsBorder(j) ==> b[j] == 1)
  }

  /** The board a new game starts from: only the border is occupied. */
  function InitialBoard(): seq<int>
  {
    seq(Size, j requires 0 <= j < Size => if IsBorder(j) then 1 else 0)
  }

  lemma InitialBoardWellFormed()
    ensures WellFormed(InitialBoard())
    ensures forall j :: 0 <= j < Size ==> (InitialBoard()[j] == 1 <==> IsBorder(j))
  {
  }

  /** Sum of the first n cells of row y: what the counter loop adds up. */
  function RowSum(b: seq<int>, y: int, n: int): (sum: int)
    requires |b| == Size && 0 <= y < Height && 0 <= n <= Width
  {
    if n == 0 then 0 else RowSum(b, y, n - 1) + Cell(b, y, n - 1)
  }

  /** A row whose Width cells add up to Width. */
  predicate FullRow(b: seq<int>, y: int)
    requires |b| == Size && 0 <= y < Height
  {
    RowSum(b, y, Width) == Width
  }

  /** On a settled board a row sums to at most its length, and exactly to it iff every cell is occupied. */
  lemma {:induction false} RowSumOnes(b: seq<int>, y: int, n: int)
    requires WellFormed(b) && 0 <= y < Height && 0 <= n <= Width
    ensures 0 <= RowSum(b, y, n) <= n
    ensures RowSum(b, y, n) == n <==> forall x :: 0 <= x < n ==> Cell(b, y, x) == 1
  {
    if n > 0 {
      RowSumOnes(b, y, n - 1);
      assert 0 <= Cell(b, y, n - 1) <= 1;
    }
  }

  /** On a settled board a full row is one whose every cell is occupied. */
  lemma FullRowIff(b: seq<int>, y: int)
    requires WellFormed(b) && 0 <= y < Height
    ensures FullRow(b, y) <==> forall x :: 0 <= x < Width ==> Cell(b, y, x) == 1
  {
    RowSumOnes(b, y, Width);
  }

  /** No row between the top row and the floor (rows 1 .. Height - 2) is full. */
  ghost predicate NoFullRow(b: seq<int>)
    requires |b| == Size
  {
    forall y :: 1 <= y <= Height - 2 ==> !FullRow(b, y)
  }

  /** A new game has no full row: only the two border cells of each row are occupied. */
  lemma InitialBoardHasNoFullRow()
    ensures NoFullRow(InitialBoard())
  {
    InitialBoardWellFormed();
    forall y | 1 <= y <= Height - 2
      ensures !FullRow(InitialBoard(), y)
    {
      IndexDecode(y, 1);
      assert Cell(InitialBoard(), y, 1) == 0;
      FullRowIff(InitialBoard(), y);
    }
  }

  /**
   * The board after the full row r has been removed: the interior cells of
   * rows 1 .. r-1 move down one row, row 1 becomes empty, and row 0, rows
   * below r and the side borders stay as they were.  For r == 1 nothing
   * moves: there is no row between 0 and 1 to move down.
   */
  function ClearRow(b: seq<int>, r: int): (c: seq<int>)
    requires |b| == Size
  {
    seq(Size, j requires 0 <= j < Size =>
      if InteriorCol(j) && 2 <= Row(j) <= r then b[j - Width]
      else if InteriorCol(j) && Row(j) == 1 && 2 <= r then 0
      else b[j])
  }

  /** Clearing row 1 changes nothing: that row is counted but stays on the board. */
  lemma ClearRowOne(b: seq<int>)
    requires |b| == Size
    ensures ClearRow(b, 1) == b
  {
    assert forall j :: 0 <= j < Size ==> ClearRow(b, 1)[j] == b[j];
  }

  /** Clearing a row keeps a settled board settled. */
  lemma ClearRowWellFormed(b: seq<int>, r: int)
    requires WellFormed(b) && 1 <= r <= Height - 2
    ensures WellFormed(ClearRow(b, r))
  {
    var c := ClearRow(b, r);
    forall j | 0 <= j < Size
      ensures c[j] == 0 || c[j] == 1
      ensures IsBorder(j) ==> c[j] == 1
    {
      if InteriorCol(j) && 2 <= Row(j) <= r {
        assert 0 <= j - Width < Size;
      }
    }
  }

  /** Two rows that agree cell by cell have the same sum. */
  lemma {:induction false} RowSumAgree(b: seq<int>, y: int, c: seq<int>, y': int, n: int)
    requires |b| == Size && |c| == Size && 0 <= y < Height && 0 <= y' < Height && 0 <= n <= Width
    requires forall x :: 0 <= x < n ==> Cell(b, y, x) == Cell(c, y', x)
    ensures RowSum(b, y, n) == RowSum(c, y', n)
  {
    if n > 0 {
      RowSumAgree(b, y, c, y', n - 1);
    }
  }

  /**
   * After clearing row r (2 <= r), row y in 2 .. r is full iff row y - 1 was,
   * row 1 is not full and rows below r are as they were.
   */
  lemma ClearRowRows(b: seq<int>, r: int)
    requires WellFormed(b) && 2 <= r <= Height - 2
    ensures forall y :: 2 <= y <= r ==> (FullRow(ClearRow(b, r), y) <==> FullRow(b, y - 1))
    ensures forall y :: r < y < Height ==> (FullRow(ClearRow(b, r), y) <==> FullRow(b, y))
    ensures !FullRow(ClearRow(b, r), 1)
  {
    var c := ClearRow(b, r);
    ClearRowWellFormed(b, r);
    forall y | 2 <= y <= r
      ensures FullRow(c, y) <==> FullRow(b, y - 1)
    {
      forall x | 0 <= x < Width
        ensures Cell(c, y, x) == Cell(b, y - 1, x)
      {
        IndexDecode(y, x);
        IndexDecode(y - 1, x);
      }
      RowSumAgree(c, y, b, y - 1, Width);
    }
    ClearRowBelow(b, r);
    IndexDecode(1, 1);
    assert Cell(c, 1, 1) == 0;
    FullRowIff(c, 1);
  }

  /** What a pass of line clearing produces: the board and the number of rows counted. */
  datatype Cleared = Cleared(board: seq<int>, lines: nat)

  /**
   * Line clearing from row `row` down to the last row above the floor: a row
   * whose cells add up to Width is counted and removed with ClearRow, and the
   * pass goes on with the next row below.  The board keeps its size and at
   * most one line is counted per row scanned.
   */
  function Scan(b: seq<int>, row: int): (res: Cleared)
    requires |b| == Size && 1 <= row <= Height - 1
    ensures |res.board| == Size
    ensures res.lines <= Height - 1 - row
    decreases Height - 1 - row
  {
    if row == Height - 1 then Cleared(b, 0)
    else if FullRow(b, row) then
      var rest := Scan(ClearRow(b, row), row + 1);
      Cleared(rest.board, rest.lines + 1)
    else Scan(b, row + 1)
  }

  /** The number of full rows among rows `row` .. Height - 2. */
  ghost function CountFull(b: seq<int>, row: int): (n: nat)
    requires |b| == Size && 1 <= row <= Height - 1
    ensures n <= Height - 1 - row
    decreases Height - 1 - row
  {
    if row == Height - 1 then 0
    else (if FullRow(b, row) then 1 else 0) + CountFull(b, row + 1)
  }

  /** Boards whose rows from `row` on are full alike have as many full rows there. */
  lemma {:induction false} CountFullAgree(b: seq<int>, c: seq<int>, row: int)
    requires |b| == Size && |c| == Size && 1 <= row <= Height - 1
    requires forall y :: row <= y < Height - 1 ==> (FullRow(b, y) <==> FullRow(c, y))
    ensures CountFull(b, row) == CountFull(c, row)
    decreases Height - 1 - row
  {
    if row < Height - 1 {
      CountFullAgree(b, c, row + 1);
    }
  }

  /** Clearing row r leaves every row below r full exactly as before. */
  lemma ClearRowBelow(b: seq<int>, r: int)
    requires |b| == Size && 1 <= r < Height
    ensures forall y :: r < y < Height ==> (FullRow(ClearRow(b, r), y) <==> FullRow(b, y))
  {
    var c := ClearRow(b, r);
    forall y | r < y < Height
      ensures FullRow(c, y) <==> FullRow(b, y)
    {
      forall x | 0 <= x < Width
        ensures Cell(c, y, x) == Cell(b, y, x)
      {
        IndexDecode(y, x);
      }
      RowSumAgree(c, y, b, y, Width);
    }
  }

  /**
   * The pass counts exactly the rows that are full on the board it starts
   * from: a removal moves only rows above the one removed, so every row below
   * is scanned as it was.
   */
  lemma {:induction false} ScanCountsFullRows(b: seq<int>, row: int)
    requires |b| == Size && 1 <= row <= Height - 1
    ensures Scan(b, row).lines == CountFull(b, row)
    decreases Height - 1 - row
  {
    if row < Height - 1 {
      if FullRow(b, row) {
        var c := ClearRow(b, row);
        ScanCountsFullRows(c, row + 1);
        ClearRowBelow(b, row);
        CountFullAgree(c, b, row + 1);
      } else {
        ScanCountsFullRows(b, row + 1);
      }
    }
  }

  /** Line clearing keeps a settled board settled: in particular the border stays occupied. */
  lemma {:induction false} ScanWellFormed(b: seq<int>, row: int)
    requires WellFormed(b) && 1 <= row <= Height - 1
    ensures WellFormed(Scan(b, row).board)
    decreases Height - 1 - row
  {
    if row < Height - 1 {
      if FullRow(b, row) {
        ClearRowWellFormed(b, row);
        ScanWellFormed(ClearRow(b, row), row + 1);
      } else {
        ScanWellFormed(b, row + 1);
      }
    }
  }

  /** Line clearing never touches row 0, the floor or the side columns. */
  lemma {:induction false} ScanFrame(b: seq<int>, row: int, j: int)
    requires |b| == Size && 1 <= row <= Height - 1 && 0 <= j < Size
    requires Row(j) == 0 || Row(j) == Height - 1 || !InteriorCol(j)
    ensures |Scan(b, row).board| == Size && Scan(b, row).board[j] == b[j]
    decreases Height - 1 - row
  {
    if row < Height - 1 {
      if FullRow(b, row) {
        ScanFrame(ClearRow(b, row), row + 1, j);
      } else {
        ScanFrame(b, row + 1, j);
      }
    }
  }

  /** A cell of row 1 is, after line clearing, either as it was or empty. */
  lemma {:induction false} ScanRowOne(b: seq<int>, row: int, j: int)
    requires |b| == Size && 1 <= row <= Height - 1 && 0 <= j < Size && Row(j) == 1
    ensures |Scan(b, row).board| == Size
    ensures Scan(b, row).board[j] == b[j] || Scan(b, row).board[j] == 0
    decreases Height - 1 - row
  {
    if row < Height - 1 {
      if FullRow(b, row) {
        ScanRowOne(ClearRow(b, row), row + 1, j);
      } else {
        ScanRowOne(b, row + 1, j);
      }
    }
  }

  /**
   * If row 1 is not full and no row above `row` is full, then after line
   * clearing from `row` on no row between the top row and the floor is full.
   */
  lemma {:induction false} ScanNoFullRow(b: seq<int>, row: int)
    requires WellFormed(b) && 1 <= row <= Height - 1
    requires !FullRow(b, 1)
    requires forall y :: 1 <= y < row ==> !FullRow(b, y)
    ensures |Scan(b, row).board| == Size && NoFullRow(Scan(b, row).board)
    decreases Height - 1 - row
  {
    if row < Height - 1 {
      if FullRow(b, row) {
        var c := ClearRow(b, row);
        ClearRowWellFormed(b, row);
        ClearRowRows(b, row);
        assert forall y :: 1 <= y < row + 1 ==> !FullRow(c, y) by {
          forall y | 1 <= y < row + 1 ensures !FullRow(c, y) {
            if y >= 2 { assert FullRow(c, y) <==> FullRow(b, y - 1); }
          }
        }
        ScanNoFullRow(c, row + 1);
      } else {
        ScanNoFullRow(b, row + 1);
      }
    }
  }

  /**
   * The board part way through the in-place shift that removes row r: rows
   * r - 1 down to i + 1 have been moved down one row, and row i has been moved
   * for the columns 1 .. j - 1.
   */
  ghost function Shifting(o: seq<int>, r: int, i: int, j: int): seq<int>
    requires |o| == Size && 0 <= i
  {
    seq(Size, k requires 0 <= k < Size =>
      if InteriorCol(k) && i + 2 <= Row(k) <= r then o[k - Width]
      else if InteriorCol(k) && Row(k) == i + 1 then
        (if Col(k) < j then o[k - Width] else if i + 1 < r then 0 else o[k])
      else if InteriorCol(k) && Row(k) == i && Col(k) < j then 0
      else o[k])
  }

  /** Before the outer loop starts (i == r - 1, j == 1) nothing has moved yet. */
  lemma ShiftingStart(o: seq<int>, r: int)
    requires |o| == Size && 1 <= r
    ensures Shifting(o, r, r - 1, 1) == o
  {
  }

  /**
   * One step of the inner loop: cell (i, j) moves to (i + 1, j) and is
   * emptied, which extends the shifted part of row i by column j.
   */
  lemma ShiftingStep(o: seq<int>, r: int, i: int, j: int)
    requires |o| == Size && 1 <= i < r < Height - 1 && 1 <= j < Width - 1
    ensures var s := Shifting(o, r, i, j);
      s[(i + 1) * Width + j := s[i * Width + j]][i * Width + j := 0] == Shifting(o, r, i, j + 1)
  {
    IndexDecode(i, j);
    IndexDecode(i + 1, j);
  }

  /** Finishing row i of the inner loop is starting row i - 1 at column 1. */
  lemma ShiftingNextRow(o: seq<int>, r: int, i: int)
    requires |o| == Size && 1 <= i < r
    ensures Shifting(o, r, i, Width - 1) == Shifting(o, r, i - 1, 1)
  {
  }

  /** When the outer loop ends (i == 0), the board is the one with row r removed. */
  lemma ShiftingDone(o: seq<int>, r: int)
    requires |o| == Size && 1 <= r
    ensures Shifting(o, r, 0, 1) == ClearRow(o, r)
  {
  }
}
