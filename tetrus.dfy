/**
 * The game engine: the state of one game of Tetrus and the operations the
 * form performs on it.  A timer step either moves the falling piece one row
 * down or locks it into the board, deals the next piece, checks for game
 * over and removes full rows; the arrow keys move the piece sideways and
 * rotate it.  Every operation keeps the invariant Valid().
 */
module Tetrus {
  import opened Playfield
  import opened Tetraminos
  import opened RandomBag

  class TetrusForm {
    /** The settled board; a lock replaces it with a new array. */
    var board: array<int>
    /** Eight slots: the current deal of seven kinds and the piece after it. */
    const randomBag: array<int>
    var randomBagIndex: int
    var rotatePhase: int
    var level: int
    var lineCount: int
    var figureCol: int
    var figureRow: int
    var isGameOver: bool
    /** The offset table of the seven tetraminos. */
    const tetraminos: seq<int>

    /** The shape of the state every board computation relies on. */
    ghost predicate Ready()
      reads this, board, randomBag
    {
      board.Length == Size && randomBag.Length == Kinds + 1 && board != randomBag &&
      IsTable(tetraminos) && IsBag(randomBag[..]) &&
      0 <= randomBagIndex < Kinds && IsPhase(rotatePhase)
    }

    /** The kind of the falling piece. */
    function Current(): (k: int)
      reads this, randomBag
      requires randomBag.Length == Kinds + 1 && 0 <= randomBagIndex < Kinds && IsBag(randomBag[..])
      ensures IsKind(k)
    {
      assert randomBag[..][..Kinds][randomBagIndex] == randomBag[randomBagIndex];
      randomBag[randomBagIndex]
    }

    /** The board with the falling piece added at its pose. */
    ghost function Merged(): seq<int>
      reads this, board, randomBag
      requires Ready()
    {
      Overlay(board[..], Cells(tetraminos, Current(), rotatePhase, figureCol, figureRow))
    }

    /**
     * The game invariant: the board is settled, the level never runs ahead
     * of the line count, the falling piece fits unless the game is over with
     * the blocked new piece at its spawn pose, and while the game runs no
     * row is left full.
     */
    ghost predicate Valid()
      reads this, board, randomBag
    {
      Ready() && WellFormed(board[..]) &&
      0 <= lineCount && 1 <= level <= lineCount / 8 + 1 &&
      (Fits(board[..], tetraminos, Current(), rotatePhase, figureCol, figureRow) ||
       (isGameOver && figureCol == 4 && figureRow == 0 && rotatePhase == 0)) &&
      (!isGameOver ==> NoFullRow(board[..]))
    }

    /** Everything except the pose of the falling piece is as it was. */
    twostate predicate SameGame()
      reads this, randomBag
    {
      board == old(board) && randomBag[..] == old(randomBag[..]) &&
      randomBagIndex == old(randomBagIndex) && level == old(level) &&
      lineCount == old(lineCount) && isGameOver == old(isGameOver)
    }

    /** A new form: empty arrays, then a new game. */
    constructor (draws: seq<int>)
      requires Completes([], draws)
      ensures Valid() && !isGameOver
      ensures board[..] == InitialBoard() && randomBag[..] == Fill([], draws).bag
      ensures randomBagIndex == 0 && level == 1 && lineCount == 0
      ensures rotatePhase == 0 && figureCol == 4 && figureRow == 0
      ensures tetraminos == Table
    {
      board := new int[Size](_ => 0);
      randomBag := new int[Kinds + 1](_ => 0);
      tetraminos := Table;
      isGameOver := false;
      new;
      TableIsTable();
      var _ := InitGame(draws);
    }

    /**
     * Starts a game: fills the bag from scratch, clears the board to its
     * border and spawns the first piece.
     */
    method InitGame(draws: seq<int>) returns (used: nat)
      requires board.Length == Size && randomBag.Length == Kinds + 1 && board != randomBag
      requires IsTable(tetraminos) && Completes([], draws)
      modifies this, board, randomBag
      ensures Valid() && board == old(board) && isGameOver == old(isGameOver)
      ensures board[..] == InitialBoard()
      ensures randomBag[..] == Fill([], draws).bag && used == Fill([], draws).used
      ensures randomBagIndex == 0 && level == 1 && lineCount == 0
      ensures rotatePhase == 0 && figureCol == 4 && figureRow == 0
    {
      used := FillRandomBag(false, draws);
      FillMakesBag([], draws);
      ClearBoard();

      randomBagIndex := 0;
      level := 1;
      lineCount := 0;
      InitTetramino();
      SpawnFitsInitial(tetraminos, Current());
      InitialBoardHasNoFullRow();
    }

    /**
     * Clears the board to its border: every cell empty, then the floor row and
     * the two side columns occupied.
     */
    method ClearBoard()
      requires board.Length == Size
      modifies board
      ensures board[..] == InitialBoard()
    {
      for i := 0 to Size
        invariant forall j :: 0 <= j < i ==> board[j] == 0
      {
        board[i] := 0;
      }
      for i := 0 to Width
        invariant forall j :: 0 <= j < Size ==> board[j] == if Size - Width <= j < Size - Width + i then 1 else 0
      {
        board[Size - Width + i] := 1;
      }
      forall j | 0 <= j < Size
        ensures board[j] == if Row(j) == Height - 1 then 1 else 0
      {
        FloorIndex(j);
      }
      for i := 0 to Height
        invariant forall j :: 0 <= j < Size ==> board[j] == if Row(j) == Height - 1 || (Row(j) < i && !InteriorCol(j)) then 1 else 0
      {
        board[i * Width] := 1;
        board[i * Width + Width - 1] := 1;
        forall j | 0 <= j < Size
          ensures board[j] == if Row(j) == Height - 1 || (Row(j) < i + 1 && !InteriorCol(j)) then 1 else 0
        {
          SideIndex(j, i);
        }
      }
      assert board[..] == InitialBoard();
    }

    /** A new piece starts unrotated with its box at column 4 of the top row. */
    method InitTetramino()
      modifies this
      ensures rotatePhase == 0 && figureCol == 4 && figureRow == 0
      ensures board == old(board) && randomBagIndex == old(randomBagIndex) && level == old(level)
      ensures lineCount == old(lineCount) && isGameOver == old(isGameOver)
    {
      rotatePhase := 0;
      figureCol := 4;
      figureRow := 0;
    }

    /**
     * Fills the bag: with needCopyLast the eighth slot of the old bag, the
     * piece already shown as next, becomes the first slot; then draws are
     * taken until the first seven slots hold seven different kinds, and one
     * more draw goes into the eighth slot.
     */
    method FillRandomBag(needCopyLast: bool, draws: seq<int>) returns (used: nat)
      requires randomBag.Length == Kinds + 1
      requires needCopyLast ==> IsKind(randomBag[Kinds])
      requires Completes(if needCopyLast then [randomBag[Kinds]] else [], draws)
      modifies randomBag
      ensures randomBag[..] == Fill(if needCopyLast then [old(randomBag[Kinds])] else [], draws).bag
      ensures used == Fill(if needCopyLast then [old(randomBag[Kinds])] else [], draws).used
    {
      ghost var seed := if needCopyLast then [randomBag[Kinds]] else [];
      var count := 0;
      if needCopyLast {
        randomBag[0] := randomBag[Kinds];
        count := count + 1;
      }
      assert draws[0..] == draws;
      used := 0;

      ghost var acc := seed;
      while count < Kinds
        invariant 0 <= count <= Kinds && 0 <= used <= |draws|
        invariant randomBag[..count] == acc
        invariant Distinct(acc) && AllKinds(acc) && Completes(acc, draws[used..])
        invariant Fill(acc, draws[used..]).bag == Fill(seed, draws).bag
        invariant Fill(acc, draws[used..]).used + used == Fill(seed, draws).used
        decreases |draws| - used
      {
        var value := draws[used];
        used := used + 1;

        var found := InBag(value, count);
        if !found {
          label before:
          randomBag[count] := value;
          assert forall m :: 0 <= m < count ==> randomBag[m] == old@before(randomBag[m]);
          assert randomBag[..count + 1] == acc + [value];
          count := count + 1;
        }

        ghost var rest := draws[used - 1..];
        assert rest[0] == value && rest[1..] == draws[used..];
        FillUnfold(acc, rest);
        if !found {
          acc := acc + [value];
        }
      }

      randomBag[count] := draws[used];
      assert randomBag[..] == acc + [draws[used]];
      used := used + 1;
    }

    /** The inner loop of the bag filling: is value among the first count slots? */
    method InBag(value: int, count: int) returns (found: bool)
      requires 0 <= count <= randomBag.Length
      ensures found <==> value in randomBag[..count]
    {
      for i := 0 to count
        invariant value !in randomBag[..i]
      {
        assert randomBag[..i + 1] == randomBag[..i] + [randomBag[i]];
        if value == randomBag[i] {
          return true;
        }
      }
      return false;
    }

    /**
     * A copy of the board with the falling piece added at column c, row r,
     * phase p: every cell the piece covers is incremented.
     */
    method GetBoard(c: int, r: int, p: int) returns (b: array<int>)
      requires Ready() && IsPhase(p) && InRange(tetraminos, Current(), p, c, r)
      ensures fresh(b) && b.Length == Size
      ensures b[..] == Overlay(board[..], Cells(tetraminos, Current(), p, c, r))
    {
      b := new int[Size];
      for i := 0 to Size
        invariant forall j :: 0 <= j < i ==> b[j] == board[j]
      {
        b[i] := board[i];
      }

      ghost var k := Current();
      ghost var cs := Cells(tetraminos, k, p, c, r);
      for i := 0 to 4
        invariant forall j :: 0 <= j < Size ==> b[j] == board[j] + Count(cs[..i], j)
      {
        var f := tetraminos[16 * randomBag[randomBagIndex] + 4 * p + i];
        var x := c + f % 4;
        var y := r + f / 4;
        CellAt(tetraminos, k, p, c, r, i);
        assert y * Width + x == cs[i];
        assert cs[..i + 1][..i] == cs[..i];
        b[y * Width + x] := b[y * Width + x] + 1;
      }
      assert cs[..4] == cs;
      OverlayByCell(board[..], cs, b[..]);
    }

    /**
     * The collision test as written: builds the overlaid board and accepts
     * the pose when no cell is above 1.  It indexes the board at the four
     * piece cells, so it is defined only for poses on the board.
     */
    method IsBoardValid(c: int, r: int, p: int) returns (ok: bool)
      requires Ready() && IsPhase(p) && InRange(tetraminos, Current(), p, c, r)
      ensures ok == Fits(board[..], tetraminos, Current(), p, c, r)
    {
      var b := GetBoard(c, r, p);
      ok := NoneAboveOne(b);
    }

    /** The check loop of the collision test: does no cell of b exceed 1? */
    static method NoneAboveOne(b: array<int>) returns (ok: bool)
      ensures ok <==> forall j :: 0 <= j < b.Length ==> b[j] <= 1
    {
      for i := 0 to b.Length
        invariant forall j :: 0 <= j < i ==> b[j] <= 1
      {
        if b[i] > 1 {
          return false;
        }
      }
      return true;
    }

    /**
     * The collision test with the missing bounds check added: a pose with a
     * cell off the board is rejected instead of indexing past the board.
     */
    method IsBoardValidGuarded(c: int, r: int, p: int) returns (ok: bool)
      requires Ready() && IsPhase(p)
      ensures ok == Fits(board[..], tetraminos, Current(), p, c, r)
    {
      if !InRange(tetraminos, Current(), p, c, r) {
        return false;
      }
      ok := IsBoardValid(c, r, p);
    }

    /** The Left key: the piece moves one column left if it fits there. */
    method MoveLeft()
      requires Valid()
      modifies this
      ensures Valid() && SameGame()
      ensures figureCol == if old(Fits(board[..], tetraminos, Current(), rotatePhase, figureCol - 1, figureRow))
        then old(figureCol) - 1 else old(figureCol)
      ensures figureRow == old(figureRow) && rotatePhase == old(rotatePhase)
    {
      NeighbourPoses();
      var ok := IsBoardValid(figureCol - 1, figureRow, rotatePhase);
      if ok {
        figureCol := figureCol - 1;
      }
    }

    /** The Right key: the piece moves one column right if it fits there. */
    method MoveRight()
      requires Valid()
      modifies this
      ensures Valid() && SameGame()
      ensures figureCol == if old(Fits(board[..], tetraminos, Current(), rotatePhase, figureCol + 1, figureRow))
        then old(figureCol) + 1 else old(figureCol)
      ensures figureRow == old(figureRow) && rotatePhase == old(rotatePhase)
    {
      NeighbourPoses();
      var ok := IsBoardValid(figureCol + 1, figureRow, rotatePhase);
      if ok {
        figureCol := figureCol + 1;
      }
    }

    /**
     * The Up key: the piece turns to the next phase (after phase 3 comes
     * phase 0) if it fits there.  The collision test used is the guarded
     * one; the test as written fails on poses like the one RotateOffBoard
     * exhibits.
     */
    method Rotate()
      requires Valid()
      modifies this
      ensures Valid() && SameGame()
      ensures rotatePhase == if old(Fits(board[..], tetraminos, Current(), (rotatePhase + 1) % 4, figureCol, figureRow))
        then (old(rotatePhase) + 1) % 4 else old(rotatePhase)
      ensures figureCol == old(figureCol) && figureRow == old(figureRow)
    {
      var rp := (rotatePhase + 1) % 4;
      var ok := IsBoardValidGuarded(figureCol, figureRow, rp);
      if ok {
        rotatePhase := rp;
      }
    }

    /** The falling piece fits one row lower. */
    ghost predicate CanFall()
      reads this, board, randomBag
      requires Ready()
    {
      Fits(board[..], tetraminos, Current(), rotatePhase, figureCol, figureRow + 1)
    }

    /**
     * One gravity step of the timer while the game runs: if the piece fits
     * one row lower it moves there, otherwise it is locked.
     */
    method GravityStep(draws: seq<int>) returns (used: nat)
      requires Valid() && !isGameOver
      requires randomBagIndex == Kinds - 1 ==> Completes([randomBag[Kinds]], draws)
      modifies this, randomBag
      ensures Valid()
      ensures old(CanFall()) ==>
        used == 0 && SameGame() &&
        figureRow == old(figureRow) + 1 && figureCol == old(figureCol) && rotatePhase == old(rotatePhase)
      ensures !old(CanFall()) ==>
        Deal(randomBag[..], randomBagIndex, used) == NextDeal(old(randomBag[..]), old(randomBagIndex), draws) &&
        level == old(lineCount) / 8 + 1 &&
        rotatePhase == 0 && figureCol == 4 && figureRow == 0 &&
        isGameOver == !Fits(old(Merged()), tetraminos, Current(), 0, 4, 0) &&
        (isGameOver ==> board[..] == old(Merged()) && lineCount == old(lineCount)) &&
        (!isGameOver ==>
          board[..] == Scan(old(Merged()), 1).board &&
          lineCount == old(lineCount) + Scan(old(Merged()), 1).lines)
    {
      NeighboursInRange(board[..], tetraminos, Current(), rotatePhase, figureCol, figureRow);
      ghost var bag, merged := randomBag[..], Merged();
      var down := IsBoardValid(figureCol, figureRow + 1, rotatePhase);
      assert down == CanFall() && bag == randomBag[..] && merged == Merged();
      if down {
        Fall();
        used := 0;
      } else {
        used := LockTetramino(draws);
      }
    }

    /** The piece that fits one row lower moves there. */
    method Fall()
      requires Valid() && CanFall()
      modifies this
      ensures Valid() && SameGame()
      ensures figureRow == old(figureRow) + 1 && figureCol == old(figureCol) && rotatePhase == old(rotatePhase)
    {
      figureRow := figureRow + 1;
    }

    /**
     * Locks the piece that cannot fall: the board becomes the board with the
     * piece merged in, the next piece is dealt, the level is taken from the
     * line count before this lock's rows are removed, and the new piece is
     * spawned; if it does not fit the game is over, else full rows are
     * removed and counted.
     */
    method LockTetramino(draws: seq<int>) returns (used: nat)
      requires Valid() && !isGameOver
      requires Fits(board[..], tetraminos, Current(), rotatePhase, figureCol, figureRow)
      requires randomBagIndex == Kinds - 1 ==> Completes([randomBag[Kinds]], draws)
      modifies this, randomBag
      ensures Valid()
      ensures Deal(randomBag[..], randomBagIndex, used) == NextDeal(old(randomBag[..]), old(randomBagIndex), draws)
      ensures level == old(lineCount) / 8 + 1
      ensures rotatePhase == 0 && figureCol == 4 && figureRow == 0
      ensures isGameOver == !Fits(old(Merged()), tetraminos, Current(), 0, 4, 0)
      ensures isGameOver ==> board[..] == old(Merged()) && lineCount == old(lineCount)
      ensures !isGameOver ==>
        board[..] == Scan(old(Merged()), 1).board &&
        lineCount == old(lineCount) + Scan(old(Merged()), 1).lines
    {
      ghost var merged := Merged();
      MergeWellFormed(board[..], tetraminos, Current(), rotatePhase, figureCol, figureRow);
      board := GetBoard(figureCol, figureRow, rotatePhase);
      used := DealNext(draws);

      level := lineCount / 8 + 1;
      InitTetramino();
      SpawnCells(tetraminos, Current());

      var ok := IsBoardValid(figureCol, figureRow, rotatePhase);
      if !ok {
        isGameOver := true;
        return;
      }

      SpawnBlocksRowOne(merged, tetraminos, Current());
      ScanWellFormed(merged, 1);
      ScanKeepsSpawn(merged, tetraminos, Current());
      ScanNoFullRow(merged, 1);
      RemoveFullLines();
    }

    /**
     * Deals the next piece of the bag; after the seventh, refills the bag
     * keeping its eighth slot first and starts again at slot 0.
     */
    method DealNext(draws: seq<int>) returns (used: nat)
      requires randomBag.Length == Kinds + 1 && IsBag(randomBag[..]) && 0 <= randomBagIndex < Kinds
      requires randomBagIndex == Kinds - 1 ==> Completes([randomBag[Kinds]], draws)
      modifies this, randomBag
      ensures Deal(randomBag[..], randomBagIndex, used) == NextDeal(old(randomBag[..]), old(randomBagIndex), draws)
      ensures board == old(board) && rotatePhase == old(rotatePhase) && level == old(level)
      ensures lineCount == old(lineCount) && isGameOver == old(isGameOver)
      ensures figureCol == old(figureCol) && figureRow == old(figureRow)
    {
      randomBagIndex := randomBagIndex + 1;
      used := 0;
      if randomBagIndex > Kinds - 1 {
        ghost var seed := [randomBag[Kinds]];
        used := FillRandomBag(true, draws);
        FillMakesBag(seed, draws);
        randomBagIndex := 0;
      }
    }

    /**
     * Removes the full rows from top to bottom (rows 1 to Height - 2), each
     * counted as one line; a row is full when its Width cells, borders
     * included, add up to Width.
     */
    method RemoveFullLines()
      requires board.Length == Size
      modifies this, board
      ensures board == old(board) && board[..] == Scan(old(board[..]), 1).board
      ensures lineCount == old(lineCount) + Scan(old(board[..]), 1).lines
      ensures randomBagIndex == old(randomBagIndex) && rotatePhase == old(rotatePhase)
      ensures level == old(level) && isGameOver == old(isGameOver)
      ensures figureCol == old(figureCol) && figureRow == old(figureRow)
    {
      ghost var res := Scan(board[..], 1);
      for row := 1 to Height - 1
        invariant board == old(board)
        invariant Scan(board[..], row).board == res.board
        invariant lineCount - old(lineCount) + Scan(board[..], row).lines == res.lines
        invariant randomBagIndex == old(randomBagIndex) && rotatePhase == old(rotatePhase)
        invariant level == old(level) && isGameOver == old(isGameOver)
        invariant figureCol == old(figureCol) && figureRow == old(figureRow)
      {
        var counter := 0;
        for col := 0 to Width
          invariant counter == RowSum(board[..], row, col)
        {
          counter := counter + board[row * Width + col];
        }
        if counter == Width {
          lineCount := lineCount + 1;
          ShiftDown(row);
        }
      }
    }

    /**
     * Removes row r in place: from row r - 1 up to row 1, each row's interior
     * cells move one row down and are emptied behind.
     */
    method ShiftDown(r: int)
      requires board.Length == Size && 1 <= r < Height - 1
      modifies board
      ensures board[..] == ClearRow(old(board[..]), r)
    {
      ghost var o := board[..];
      ShiftingStart(o, r);
      var i := r - 1;
      while i > 0
        invariant 0 <= i <= r - 1
        invariant board[..] == Shifting(o, r, i, 1)
        decreases i
      {
        for j := 1 to Width - 1
          invariant board[..] == Shifting(o, r, i, j)
        {
          ShiftingStep(o, r, i, j);
          board[(i + 1) * Width + j] := board[i * Width + j];
          board[i * Width + j] := 0;
        }
        ShiftingNextRow(o, r, i);
        i := i - 1;
      }
      ShiftingDone(o, r);
    }

    /**
     * From a valid state the test poses of the Left and Right keys lie on the
     * board, also after game over, when the piece may be blocked at its spawn
     * pose.
     */
    lemma NeighbourPoses()
      requires Valid()
      ensures InRange(tetraminos, Current(), rotatePhase, figureCol - 1, figureRow)
      ensures InRange(tetraminos, Current(), rotatePhase, figureCol + 1, figureRow)
    {
      var k := Current();
      if Fits(board[..], tetraminos, k, rotatePhase, figureCol, figureRow) {
        NeighboursInRange(board[..], tetraminos, k, rotatePhase, figureCol, figureRow);
      } else {
        assert figureCol == 4 && figureRow == 0 && rotatePhase == 0;
        SpawnCells(tetraminos, k);
      }
    }
  }
}
