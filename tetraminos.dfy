/**
 * The seven tetraminos and the collision primitive.  Each kind has four
 * rotation phases of four offsets f in 0 .. 15 inside a 4 x 4 box, decoded as
 * column f % 4 and row f / 4.  A pose (kind, phase, column, row) puts the
 * piece's box with its top-left corner at that column and row; Overlay adds
 * the piece to a copy of the board and Fits says that no cell of the copy is
 * above 1.
 *
 * The functions take the offset table as a parameter t.  The lemmas about
 * them need only the shape facts IsTable(t) records, which TableIsTable
 * proves of the literal Table; the game engine holds Table in a constant
 * field.
 */
module Tetraminos {
  import opened Playfield

  const Kinds: int := 7
  const Phases: int := 4
  const TableLength: int := 16 * Kinds

  /**
   * The offsets of all kinds in one flat table: kind k, phase p, cell i at
   * index 16 * k + 4 * p + i.  Kinds in order I, J, L, O, S, T, Z, each the
   * four phases of four offsets.
   */
  const Table: seq<int> := I + J + L + O + S + T + Z

  const I: seq<int> := [4, 5, 6, 7,  2, 6, 10, 14,  8, 9, 10, 11,  1, 5, 9, 13]
  const J: seq<int> := [0, 4, 5, 6,  1, 2, 5, 9,  4, 5, 6, 10,  1, 5, 8, 9]
  const L: seq<int> := [2, 4, 5, 6,  1, 5, 9, 10,  4, 5, 6, 8,  0, 1, 5, 9]
  const O: seq<int> := [1, 2, 5, 6,  1, 2, 5, 6,  1, 2, 5, 6,  1, 2, 5, 6]
  const S: seq<int> := [1, 2, 4, 5,  1, 5, 6, 10,  5, 6, 8, 9,  0, 4, 5, 9]
  const T: seq<int> := [1, 4, 5, 6,  1, 5, 6, 9,  4, 5, 6, 9,  1, 4, 5, 9]
  const Z: seq<int> := [0, 1, 5, 6,  2, 5, 6, 9,  4, 5, 9, 10,  1, 4, 5, 8]

  predicate IsKind(k: int) { 0 <= k < Kinds }
  predicate IsPhase(p: int) { 0 <= p < Phases }

  /** Offset of cell i of kind k in phase p. */
  function Offset(t: seq<int>, k: int, p: int, i: int): (f: int)
    requires |t| == TableLength && IsKind(k) && IsPhase(p) && 0 <= i < 4
  {
    t[16 * k + 4 * p + i]
  }

  /** Board index of cell i of a piece whose box has its corner at column c, row r. */
  function CellIndex(t: seq<int>, k: int, p: int, c: int, r: int, i: int): (j: int)
    requires |t| == TableLength && IsKind(k) && IsPhase(p) && 0 <= i < 4
  {
    (r + Offset(t, k, p, i) / 4) * Width + (c + Offset(t, k, p, i) % 4)
  }

  /** The four board indices a pose covers. */
  function Cells(t: seq<int>, k: int, p: int, c: int, r: int): (cs: seq<int>)
    requires |t| == TableLength && IsKind(k) && IsPhase(p)
  {
    [CellIndex(t, k, p, c, r, 0), CellIndex(t, k, p, c, r, 1),
     CellIndex(t, k, p, c, r, 2), CellIndex(t, k, p, c, r, 3)]
  }

  /** Every index the pose covers lies on the board. */
  predicate InRange(t: seq<int>, k: int, p: int, c: int, r: int)
    requires |t| == TableLength && IsKind(k) && IsPhase(p)
  {
    forall i :: 0 <= i < 4 ==> 0 <= Cells(t, k, p, c, r)[i] < Size
  }

  /** A copy of the board with every cell incremented once per piece cell on it. */
  function Overlay(b: seq<int>, cells: seq<int>): (x: seq<int>)
    requires |b| == Size
  {
    seq(Size, j requires 0 <= j < Size => b[j] + Count(cells, j))
  }

  /** How many entries of s equal j. */
  function Count(s: seq<int>, j: int): (n: nat)
  {
    if |s| == 0 then 0 else Count(s[..|s| - 1], j) + (if s[|s| - 1] == j then 1 else 0)
  }

  /** Cell i of a pose is its i-th board index. */
  lemma CellAt(t: seq<int>, k: int, p: int, c: int, r: int, i: int)
    requires |t| == TableLength && IsKind(k) && IsPhase(p) && 0 <= i < 4
    ensures Cells(t, k, p, c, r)[i] == CellIndex(t, k, p, c, r, i)
  {
  }

  /** A board that agrees cell by cell with an overlay is that overlay. */
  lemma OverlayByCell(b: seq<int>, cells: seq<int>, x: seq<int>)
    requires |b| == Size && |x| == Size
    requires forall j :: 0 <= j < Size ==> x[j] == b[j] + Count(cells, j)
    ensures x == Overlay(b, cells)
  {
  }

  /** The pose is on the board and the overlaid copy has no cell above 1. */
  predicate Fits(b: seq<int>, t: seq<int>, k: int, p: int, c: int, r: int)
    requires |b| == Size && |t| == TableLength && IsKind(k) && IsPhase(p)
  {
    InRange(t, k, p, c, r) && forall j :: 0 <= j < Size ==> Overlay(b, Cells(t, k, p, c, r))[j] <= 1
  }

  /** The four offsets of a phase lie in the 4 x 4 box and differ from each other. */
  predicate PhaseShape(t: seq<int>, k: int, p: int)
    requires |t| == TableLength && IsKind(k) && IsPhase(p)
  {
    0 <= Offset(t, k, p, 0) < 16 && 0 <= Offset(t, k, p, 1) < 16 &&
    0 <= Offset(t, k, p, 2) < 16 && 0 <= Offset(t, k, p, 3) < 16 &&
    Offset(t, k, p, 0) != Offset(t, k, p, 1) && Offset(t, k, p, 0) != Offset(t, k, p, 2) &&
    Offset(t, k, p, 0) != Offset(t, k, p, 3) && Offset(t, k, p, 1) != Offset(t, k, p, 2) &&
    Offset(t, k, p, 1) != Offset(t, k, p, 3) && Offset(t, k, p, 2) != Offset(t, k, p, 3)
  }

  /**
   * The spawn phase 0 lies in the top two rows of the box (offsets below 8)
   * and covers offset 5, the cell one row down and one column right of the
   * box corner.
   */
  predicate SpawnShape(t: seq<int>, k: int)
    requires |t| == TableLength && IsKind(k)
  {
    Offset(t, k, 0, 0) < 8 && Offset(t, k, 0, 1) < 8 && Offset(t, k, 0, 2) < 8 && Offset(t, k, 0, 3) < 8 &&
    (Offset(t, k, 0, 0) == 5 || Offset(t, k, 0, 1) == 5 || Offset(t, k, 0, 2) == 5 || Offset(t, k, 0, 3) == 5)
  }

  /** The shape facts every proof about poses relies on. */
  ghost predicate IsTable(t: seq<int>)
  {
    |t| == TableLength &&
    (forall k, p :: IsKind(k) && IsPhase(p) ==> PhaseShape(t, k, p)) &&
    (forall k :: IsKind(k) ==> SpawnShape(t, k))
  }

  lemma ShapeI(k: int, p: int)
    requires k == 0 && IsPhase(p)
    ensures PhaseShape(Table, k, p) && SpawnShape(Table, k)
  {
    if p == 0 { } else if p == 1 { } else if p == 2 { } else { }
  }

  lemma ShapeJ(k: int, p: int)
    requires k == 1 && IsPhase(p)
    ensures PhaseShape(Table, k, p) && SpawnShape(Table, k)
  {
    if p == 0 { } else if p == 1 { } else if p == 2 { } else { }
  }

  lemma ShapeL(k: int, p: int)
    requires k == 2 && IsPhase(p)
    ensures PhaseShape(Table, k, p) && SpawnShape(Table, k)
  {
    if p == 0 { } else if p == 1 { } else if p == 2 { } else { }
  }

  lemma ShapeO(k: int, p: int)
    requires k == 3 && IsPhase(p)
    ensures PhaseShape(Table, k, p) && SpawnShape(Table, k)
  {
    if p == 0 { } else if p == 1 { } else if p == 2 { } else { }
  }

  lemma ShapeS(k: int, p: int)
    requires k == 4 && IsPhase(p)
    ensures PhaseShape(Table, k, p) && SpawnShape(Table, k)
  {
    if p == 0 { } else if p == 1 { } else if p == 2 { } else { }
  }

  lemma ShapeT(k: int, p: int)
    requires k == 5 && IsPhase(p)
    ensures PhaseShape(Table, k, p) && SpawnShape(Table, k)
  {
    if p == 0 { } else if p == 1 { } else if p == 2 { } else { }
  }

  lemma ShapeZ(k: int, p: int)
    requires k == 6 && IsPhase(p)
    ensures PhaseShape(Table, k, p) && SpawnShape(Table, k)
  {
    if p == 0 { } else if p == 1 { } else if p == 2 { } else { }
  }

  lemma TableShape(k: int, p: int)
    requires IsKind(k) && IsPhase(p)
    ensures PhaseShape(Table, k, p) && SpawnShape(Table, k)
  {
    if k == 0 { ShapeI(k, p); }
    else if k == 1 { ShapeJ(k, p); }
    else if k == 2 { ShapeL(k, p); }
    else if k == 3 { ShapeO(k, p); }
    else if k == 4 { ShapeS(k, p); }
    else if k == 5 { ShapeT(k, p); }
    else { ShapeZ(k, p); }
  }

  /** The literal table has the required shape: every phase of every kind. */
  lemma TableIsTable()
    ensures IsTable(Table)
  {
    forall k, p | IsKind(k) && IsPhase(p)
      ensures PhaseShape(Table, k, p)
    {
      TableShape(k, p);
    }
    forall k | IsKind(k)
      ensures SpawnShape(Table, k)
    {
      TableShape(k, 0);
    }
  }

  /** Two different offsets of the box land on different board indices. */
  lemma OffsetIndexInjective(o: int, o': int, c: int, r: int)
    requires 0 <= o < 16 && 0 <= o' < 16 && o != o'
    ensures (r + o / 4) * Width + (c + o % 4) != (r + o' / 4) * Width + (c + o' % 4)
  {
  }

  /** The four cells of a pose are four different board indices. */
  lemma CellsDistinct(t: seq<int>, k: int, p: int, c: int, r: int)
    requires IsTable(t) && IsKind(k) && IsPhase(p)
    ensures forall i, i' :: 0 <= i < i' < 4 ==> Cells(t, k, p, c, r)[i] != Cells(t, k, p, c, r)[i']
  {
    assert PhaseShape(t, k, p);
    forall i, i' | 0 <= i < i' < 4
      ensures Cells(t, k, p, c, r)[i] != Cells(t, k, p, c, r)[i']
    {
      OffsetIndexInjective(Offset(t, k, p, i), Offset(t, k, p, i'), c, r);
    }
  }

  /** A sequence without repeated entries holds each value at most once. */
  lemma {:induction false} CountDistinct(cs: seq<int>, j: int)
    requires forall i, i' :: 0 <= i < i' < |cs| ==> cs[i] != cs[i']
    ensures Count(cs, j) == if j in cs then 1 else 0
  {
    if cs != [] {
      var init := cs[..|cs| - 1];
      assert cs == init + [cs[|cs| - 1]];
      CountDistinct(init, j);
      assert cs[|cs| - 1] !in init by {
        forall i | 0 <= i < |init| ensures init[i] != cs[|cs| - 1] {
          assert init[i] == cs[i];
        }
      }
    }
  }

  /** Overlaying four different indices adds exactly 1 to each of them and 0 elsewhere. */
  lemma OverlayAt(b: seq<int>, t: seq<int>, k: int, p: int, c: int, r: int, j: int)
    requires |b| == Size && IsTable(t) && IsKind(k) && IsPhase(p) && 0 <= j < Size
    ensures Overlay(b, Cells(t, k, p, c, r))[j] == b[j] + (if j in Cells(t, k, p, c, r) then 1 else 0)
  {
    CellsDistinct(t, k, p, c, r);
    CountDistinct(Cells(t, k, p, c, r), j);
  }

  /**
   * On a settled board the collision test accepts a pose exactly when the
   * pose is on the board and each of its four cells is empty: it rejects a
   * pose that overlaps a settled block, a side border or the floor.
   */
  lemma FitsIffEmpty(b: seq<int>, t: seq<int>, k: int, p: int, c: int, r: int)
    requires WellFormed(b) && IsTable(t) && IsKind(k) && IsPhase(p)
    ensures Fits(b, t, k, p, c, r) <==>
      InRange(t, k, p, c, r) && forall i :: 0 <= i < 4 ==> b[Cells(t, k, p, c, r)[i]] == 0
  {
    var cs := Cells(t, k, p, c, r);
    if InRange(t, k, p, c, r) {
      forall j | 0 <= j < Size {
        OverlayAt(b, t, k, p, c, r, j);
      }
      if Fits(b, t, k, p, c, r) {
        forall i | 0 <= i < 4
          ensures b[cs[i]] == 0
        {
          assert cs[i] in cs;
          assert Overlay(b, cs)[cs[i]] <= 1;
        }
      }
    }
  }

  /**
   * Merging a fitting pose into a settled board gives a settled board that
   * differs from the old one exactly at the four piece cells, now occupied.
   */
  lemma MergeWellFormed(b: seq<int>, t: seq<int>, k: int, p: int, c: int, r: int)
    requires WellFormed(b) && IsTable(t) && IsKind(k) && IsPhase(p) && Fits(b, t, k, p, c, r)
    ensures WellFormed(Overlay(b, Cells(t, k, p, c, r)))
    ensures forall j :: 0 <= j < Size ==>
      Overlay(b, Cells(t, k, p, c, r))[j] == if j in Cells(t, k, p, c, r) then 1 else b[j]
  {
    FitsIffEmpty(b, t, k, p, c, r);
    forall j | 0 <= j < Size
      ensures Overlay(b, Cells(t, k, p, c, r))[j] == if j in Cells(t, k, p, c, r) then 1 else b[j]
    {
      OverlayAt(b, t, k, p, c, r, j);
    }
  }

  /**
   * From a pose that fits a settled board, the poses one column left, one
   * column right and one row down all stay on the board: the collision test
   * for a move or a descent never indexes outside it.
   */
  lemma NeighboursInRange(b: seq<int>, t: seq<int>, k: int, p: int, c: int, r: int)
    requires WellFormed(b) && IsTable(t) && IsKind(k) && IsPhase(p) && Fits(b, t, k, p, c, r)
    ensures InRange(t, k, p, c - 1, r) && InRange(t, k, p, c + 1, r) && InRange(t, k, p, c, r + 1)
  {
    FitsIffEmpty(b, t, k, p, c, r);
    var left, right, down := c - 1, c + 1, r + 1;
    forall i | 0 <= i < 4
      ensures 0 <= Cells(t, k, p, left, r)[i] < Size
      ensures 0 <= Cells(t, k, p, right, r)[i] < Size
      ensures 0 <= Cells(t, k, p, c, down)[i] < Size
    {
      var j := Cells(t, k, p, c, r)[i];
      assert b[j] == 0;
      assert !IsBorder(j);
    }
  }

  /**
   * Cell i of a pose, decoded: when its box column is on the board, the cell
   * lies at row r + f / 4 and column c + f % 4 of offset f.
   */
  lemma CellDecode(t: seq<int>, k: int, p: int, c: int, r: int, i: int)
    requires |t| == TableLength && IsKind(k) && IsPhase(p) && 0 <= i < 4
    requires 0 <= c + Offset(t, k, p, i) % 4 < Width
    ensures Cells(t, k, p, c, r)[i] == CellIndex(t, k, p, c, r, i)
    ensures Row(Cells(t, k, p, c, r)[i]) == r + Offset(t, k, p, i) / 4
    ensures Col(Cells(t, k, p, c, r)[i]) == c + Offset(t, k, p, i) % 4
  {
    IndexDecode(r + Offset(t, k, p, i) / 4, c + Offset(t, k, p, i) % 4);
  }

  /** A cell of the spawn phase lies in the top two rows of its box. */
  lemma SpawnOffset(t: seq<int>, k: int, i: int)
    requires IsTable(t) && IsKind(k) && 0 <= i < 4
    ensures 0 <= Offset(t, k, 0, i) < 8
    ensures 0 <= Offset(t, k, 0, i) / 4 <= 1 && 0 <= Offset(t, k, 0, i) % 4 <= 3
  {
    assert PhaseShape(t, k, 0) && SpawnShape(t, k);
  }

  /**
   * The spawn pose (phase 0, column 4, row 0) and its neighbours one column
   * left, one column right and one row down lie on the board; the spawn pose
   * covers rows 0 and 1, columns 4 to 7.
   */
  lemma SpawnCells(t: seq<int>, k: int)
    requires IsTable(t) && IsKind(k)
    ensures InRange(t, k, 0, 3, 0) && InRange(t, k, 0, 4, 0) && InRange(t, k, 0, 5, 0)
    ensures InRange(t, k, 0, 4, 1)
    ensures forall i :: 0 <= i < 4 ==>
      Row(Cells(t, k, 0, 4, 0)[i]) <= 1 && 4 <= Col(Cells(t, k, 0, 4, 0)[i]) <= 7
  {
    forall i | 0 <= i < 4
      ensures 0 <= Cells(t, k, 0, 3, 0)[i] < Size
      ensures 0 <= Cells(t, k, 0, 4, 0)[i] < Size
      ensures 0 <= Cells(t, k, 0, 5, 0)[i] < Size
      ensures 0 <= Cells(t, k, 0, 4, 1)[i] < Size
      ensures Row(Cells(t, k, 0, 4, 0)[i]) <= 1 && 4 <= Col(Cells(t, k, 0, 4, 0)[i]) <= 7
    {
      SpawnOffset(t, k, i);
      CellDecode(t, k, 0, 3, 0, i);
      CellDecode(t, k, 0, 4, 0, i);
      CellDecode(t, k, 0, 5, 0, i);
      CellDecode(t, k, 0, 4, 1, i);
    }
  }

  /** Every piece fits at its spawn pose on the board a new game starts from. */
  lemma SpawnFitsInitial(t: seq<int>, k: int)
    requires IsTable(t) && IsKind(k)
    ensures Fits(InitialBoard(), t, k, 0, 4, 0)
  {
    InitialBoardWellFormed();
    SpawnCells(t, k);
    FitsIffEmpty(InitialBoard(), t, k, 0, 4, 0);
  }

  /**
   * Every spawn pose covers cell (1, 5): a full row 1 makes every spawn pose
   * invalid.
   */
  lemma SpawnBlocksRowOne(b: seq<int>, t: seq<int>, k: int)
    requires WellFormed(b) && IsTable(t) && IsKind(k) && Fits(b, t, k, 0, 4, 0)
    ensures !FullRow(b, 1)
  {
    assert SpawnShape(t, k);
    FitsIffEmpty(b, t, k, 0, 4, 0);
    var i :| 0 <= i < 4 && Offset(t, k, 0, i) == 5;
    CellDecode(t, k, 0, 4, 0, i);
    assert Cells(t, k, 0, 4, 0)[i] == 1 * Width + 5;
    assert Cell(b, 1, 5) == 0;
    FullRowIff(b, 1);
  }

  /**
   * Line clearing keeps a fitting spawn pose fitting: it does not touch row 0
   * and only empties cells of row 1.
   */
  lemma ScanKeepsSpawn(b: seq<int>, t: seq<int>, k: int)
    requires WellFormed(b) && IsTable(t) && IsKind(k) && Fits(b, t, k, 0, 4, 0)
    ensures Fits(Scan(b, 1).board, t, k, 0, 4, 0)
  {
    var after := Scan(b, 1).board;
    ScanWellFormed(b, 1);
    SpawnCells(t, k);
    FitsIffEmpty(b, t, k, 0, 4, 0);
    FitsIffEmpty(after, t, k, 0, 4, 0);
    forall i | 0 <= i < 4
      ensures after[Cells(t, k, 0, 4, 0)[i]] == 0
    {
      var j := Cells(t, k, 0, 4, 0)[i];
      if Row(j) == 0 {
        ScanFrame(b, 1, j);
      } else {
        ScanRowOne(b, 1, j);
      }
    }
  }

  /**
   * On the empty board a piece in its spawn phase at column 4 fits at every
   * row 0 .. 16 and not at row 17, where its lower row would be the floor:
   * gravity brings it down to row 16 and locks it there.
   */
  lemma DropOnEmptyBoard(t: seq<int>, k: int, r: int)
    requires IsTable(t) && IsKind(k) && 0 <= r
    ensures Fits(InitialBoard(), t, k, 0, 4, r) <==> r <= Height - 3
  {
    InitialBoardWellFormed();
    FitsIffEmpty(InitialBoard(), t, k, 0, 4, r);
    var cs := Cells(t, k, 0, 4, r);
    if r <= Height - 3 {
      forall i | 0 <= i < 4
        ensures 0 <= cs[i] < Size && InitialBoard()[cs[i]] == 0
      {
        SpawnOffset(t, k, i);
        CellDecode(t, k, 0, 4, r, i);
        assert !IsBorder(cs[i]);
      }
    } else {
      assert SpawnShape(t, k);
      var i :| 0 <= i < 4 && Offset(t, k, 0, i) == 5;
      CellDecode(t, k, 0, 4, r, i);
      assert Row(cs[i]) == r + 1 >= Height - 1;
      if cs[i] < Size {
        assert IsBorder(cs[i]);
      }
    }
  }

  /**
   * A horizontal I (kind 0, phase 0) at column 4 fits the empty board at row
   * 16, resting on the floor; rotating it to phase 1 there puts its last cell
   * at index 19 * 12 + 6 = 234, past the end of the 228-cell board.
   */
  lemma RotateOffBoard()
    ensures Fits(InitialBoard(), Table, 0, 0, 4, Height - 3)
    ensures !InRange(Table, 0, 1, 4, Height - 3)
    ensures Cells(Table, 0, 1, 4, Height - 3)[3] == 234
  {
    TableIsTable();
    DropOnEmptyBoard(Table, 0, Height - 3);
    assert Offset(Table, 0, 1, 3) == 14;
    assert !(Cells(Table, 0, 1, 4, Height - 3)[3] < Size);
  }
}
