/** The 3x3 board: its cells, the incrementally kept count of marked cells,
    the terminal-state queries and the enumeration of free cells.

    Cells hold 0 (empty), 1 (player one) or 2 (player two). The grid is kept
    flat, in row-major order: cell (row, col) is at index 3 * row + col. */
module BoardModel {

  /** A cell address (row, col), as the program's tuples. */
  datatype Pos = Pos(row: int, col: int)

  /** The value of a board: its nine cells and its `marked_boxes` counter.
      A deep copy of a board is exactly this value. */
  datatype State = State(cells: seq<int>, marked: int)

  predicate ValidCells(cells: seq<int>)
  {
    |cells| == 9 && forall i :: 0 <= i < 9 ==> 0 <= cells[i] <= 2
  }

  predicate WellFormed(s: State)
  {
    ValidCells(s.cells)
  }

  predicate OnBoard(p: Pos)
  {
    0 <= p.row < 3 && 0 <= p.col < 3
  }

  function Index(p: Pos): nat
    requires OnBoard(p)
  {
    3 * p.row + p.col
  }

  /** The cell at (row, col). */
  function At(cells: seq<int>, row: int, col: int): int
    requires |cells| == 9 && 0 <= row < 3 && 0 <= col < 3
  {
    cells[3 * row + col]
  }

  /** The board a new game starts from: every cell empty, counter 0. */
  function Initial(): State
  {
    State([0, 0, 0, 0, 0, 0, 0, 0, 0], 0)
  }

  // ---------------------------------------------------------------------
  // The counter

  /** Number of non-empty cells. */
  function Occupied(cells: seq<int>): (n: nat)
    ensures n <= |cells|
  {
    if cells == [] then 0
    else Occupied(cells[..|cells| - 1]) + (if cells[|cells| - 1] != 0 then 1 else 0)
  }

  /** The invariant the program keeps by incrementing `marked_boxes` once per
      mark on an empty cell: the counter equals the number of marked cells. */
  predicate Consistent(s: State)
  {
    WellFormed(s) && s.marked == Occupied(s.cells)
  }

  lemma {:induction false} OccupiedUpdate(cells: seq<int>, i: int, x: int)
    requires 0 <= i < |cells| && cells[i] == 0 && x != 0
    ensures Occupied(cells[i := x]) == Occupied(cells) + 1
    decreases |cells|
  {
    var n := |cells|;
    var updated := cells[i := x];
    if i == n - 1 {
      assert updated[..n - 1] == cells[..n - 1];
    } else {
      assert updated[..n - 1] == cells[..n - 1][i := x];
      OccupiedUpdate(cells[..n - 1], i, x);
    }
  }

  lemma {:induction false} OccupiedExtremes(cells: seq<int>)
    ensures Occupied(cells) == |cells| <==> forall i :: 0 <= i < |cells| ==> cells[i] != 0
    ensures Occupied(cells) == 0 <==> forall i :: 0 <= i < |cells| ==> cells[i] == 0
    decreases |cells|
  {
    if cells != [] {
      var n := |cells|;
      var front := cells[..n - 1];
      OccupiedExtremes(front);
      assert forall i :: 0 <= i < n - 1 ==> front[i] == cells[i];
    }
  }

  lemma InitialConsistent()
    ensures Consistent(Initial()) && IsEmpty(Initial()) && !IsFull(Initial())
  {
    OccupiedExtremes(Initial().cells);
  }

  // ---------------------------------------------------------------------
  // Marking

  /** `mark_box` applied to a copy of the board. */
  function Mark(s: State, row: int, col: int, p1Turn: bool): (r: State)
    requires WellFormed(s) && 0 <= row < 3 && 0 <= col < 3
    ensures WellFormed(r)
    ensures At(r.cells, row, col) == (if p1Turn then 1 else 2)
    ensures forall i :: 0 <= i < 9 && i != 3 * row + col ==> r.cells[i] == s.cells[i]
    ensures r.marked == s.marked + 1
  {
    State(s.cells[3 * row + col := if p1Turn then 1 else 2], s.marked + 1)
  }

  /** Marking an empty cell adds exactly one marked cell. */
  lemma MarkOccupied(s: State, row: int, col: int, p1Turn: bool)
    requires WellFormed(s) && 0 <= row < 3 && 0 <= col < 3 && EmptyBox(s, row, col)
    ensures Occupied(Mark(s, row, col, p1Turn).cells) == Occupied(s.cells) + 1
  {
    OccupiedUpdate(s.cells, 3 * row + col, if p1Turn then 1 else 2);
  }

  /** Marking an empty cell keeps the counter equal to the number of marked cells. */
  lemma MarkKeepsCount(s: State, row: int, col: int, p1Turn: bool)
    requires Consistent(s) && 0 <= row < 3 && 0 <= col < 3 && EmptyBox(s, row, col)
    ensures Consistent(Mark(s, row, col, p1Turn))
  {
    MarkOccupied(s, row, col, p1Turn);
  }

  predicate OnBoardPlays(plays: seq<(Pos, bool)>)
  {
    forall k :: 0 <= k < |plays| ==> OnBoard(plays[k].0)
  }

  /** A sequence of marks, each (cell, p1Turn), applied one after another. */
  function Replay(s: State, plays: seq<(Pos, bool)>): (r: State)
    requires WellFormed(s) && OnBoardPlays(plays)
    ensures WellFormed(r)
    decreases |plays|
  {
    if plays == [] then s
    else Replay(Mark(s, plays[0].0.row, plays[0].0.col, plays[0].1), plays[1..])
  }

  /** Every mark of `plays` lands on a cell that is empty when it is made. */
  predicate OnEmptyCells(s: State, plays: seq<(Pos, bool)>)
    requires WellFormed(s) && OnBoardPlays(plays)
    decreases |plays|
  {
    plays == [] ||
    (EmptyBox(s, plays[0].0.row, plays[0].0.col) &&
     OnEmptyCells(Mark(s, plays[0].0.row, plays[0].0.col, plays[0].1), plays[1..]))
  }

  /** Marks on empty cells keep the counter invariant, and k of them add k to the counter. */
  lemma {:induction false} ReplayKeepsCount(s: State, plays: seq<(Pos, bool)>)
    requires Consistent(s) && OnBoardPlays(plays)
    requires OnEmptyCells(s, plays)
    ensures Consistent(Replay(s, plays))
    ensures Replay(s, plays).marked == s.marked + |plays|
    decreases |plays|
  {
    if plays != [] {
      var p := plays[0].0;
      MarkKeepsCount(s, p.row, p.col, plays[0].1);
      ReplayKeepsCount(Mark(s, p.row, p.col, plays[0].1), plays[1..]);
    }
  }

  /** From the initial board, after k marks on empty cells the counter is k
      and equals the number of marked cells. */
  lemma GameCount(plays: seq<(Pos, bool)>)
    requires OnBoardPlays(plays)
    requires OnEmptyCells(Initial(), plays)
    ensures Consistent(Replay(Initial(), plays))
    ensures Replay(Initial(), plays).marked == |plays|
  {
    InitialConsistent();
    ReplayKeepsCount(Initial(), plays);
  }

  // ---------------------------------------------------------------------
  // Queries

  /** `empty_box` */
  predicate EmptyBox(s: State, row: int, col: int)
    requires WellFormed(s) && 0 <= row < 3 && 0 <= col < 3
  {
    At(s.cells, row, col) == 0
  }

  /** `is_full`: the counter, not the cells, is consulted. */
  predicate IsFull(s: State)
  {
    s.marked == 9
  }

  /** `is_empty` */
  predicate IsEmpty(s: State)
  {
    s.marked == 0
  }

  /** Under the counter invariant, the counter-based queries agree with the cells. */
  lemma FullAndEmpty(s: State)
    requires Consistent(s)
    ensures IsFull(s) <==> forall i :: 0 <= i < 9 ==> s.cells[i] != 0
    ensures IsEmpty(s) <==> forall i :: 0 <= i < 9 ==> s.cells[i] == 0
  {
    OccupiedExtremes(s.cells);
  }

  /** The empty cells among the first n in row-major order, in that order. */
  function EmptyUpTo(cells: seq<int>, n: nat): seq<Pos>
    requires |cells| == 9 && n <= 9
  {
    if n == 0 then []
    else EmptyUpTo(cells, n - 1) + (if cells[n - 1] == 0 then [Pos((n - 1) / 3, (n - 1) % 3)] else [])
  }

  /** What `get_empty_box` returns. */
  function EmptyBoxes(s: State): (r: seq<Pos>)
    requires WellFormed(s)
    ensures forall k :: 0 <= k < |r| ==> OnBoard(r[k]) && EmptyBox(s, r[k].row, r[k].col)
  {
    EmptyUpToCells(s.cells, 9);
    EmptyUpTo(s.cells, 9)
  }

  lemma IndexOfPos(p: Pos)
    requires OnBoard(p)
    ensures Index(p) < 9 && Pos(Index(p) / 3, Index(p) % 3) == p
  {
  }

  /** Cells on the board in strictly increasing row-major position, hence each at most once. */
  predicate RowMajor(ps: seq<Pos>)
  {
    forall i, j :: 0 <= i < j < |ps| ==> OnBoard(ps[i]) && OnBoard(ps[j]) && Index(ps[i]) < Index(ps[j])
  }

  lemma {:induction false} EmptyUpToCells(cells: seq<int>, n: nat)
    requires |cells| == 9 && n <= 9
    ensures forall k :: 0 <= k < |EmptyUpTo(cells, n)| ==>
              OnBoard(EmptyUpTo(cells, n)[k]) && cells[Index(EmptyUpTo(cells, n)[k])] == 0
  {
    if n > 0 {
      EmptyUpToCells(cells, n - 1);
      assert Index(Pos((n - 1) / 3, (n - 1) % 3)) == n - 1;
    }
  }

  lemma {:induction false} EmptyUpToMembers(cells: seq<int>, n: nat)
    requires |cells| == 9 && n <= 9
    ensures forall p :: p in EmptyUpTo(cells, n) <==> OnBoard(p) && Index(p) < n && cells[Index(p)] == 0
  {
    if n > 0 {
      EmptyUpToMembers(cells, n - 1);
      var q := Pos((n - 1) / 3, (n - 1) % 3);
      assert OnBoard(q) && Index(q) == n - 1;
      forall p | OnBoard(p) && Index(p) == n - 1
        ensures p == q
      {
        IndexOfPos(p);
      }
    }
  }

  lemma {:induction false} EmptyUpToOrder(cells: seq<int>, n: nat)
    requires |cells| == 9 && n <= 9
    ensures RowMajor(EmptyUpTo(cells, n))
  {
    if n > 0 {
      EmptyUpToOrder(cells, n - 1);
      EmptyUpToMembers(cells, n - 1);
      var front := EmptyUpTo(cells, n - 1);
      var q := Pos((n - 1) / 3, (n - 1) % 3);
      assert OnBoard(q) && Index(q) == n - 1;
      if cells[n - 1] == 0 {
        var ps := front + [q];
        assert EmptyUpTo(cells, n) == ps;
        forall i, j | 0 <= i < j < |ps|
          ensures OnBoard(ps[i]) && OnBoard(ps[j]) && Index(ps[i]) < Index(ps[j])
        {
          if j == |front| {
            assert ps[i] in front;
          }
        }
      }
    }
  }

  lemma {:induction false} EmptyUpToLength(cells: seq<int>, n: nat)
    requires |cells| == 9 && n <= 9
    ensures |EmptyUpTo(cells, n)| == n - Occupied(cells[..n])
  {
    if n > 0 {
      EmptyUpToLength(cells, n - 1);
      assert cells[..n][..n - 1] == cells[..n - 1];
    }
  }

  /** `get_empty_box` lists exactly the empty cells, each once, in row-major
      order, and under the counter invariant there are 9 - marked of them. */
  lemma EmptyBoxesSpec(s: State)
    requires WellFormed(s)
    ensures forall p :: p in EmptyBoxes(s) <==> OnBoard(p) && EmptyBox(s, p.row, p.col)
    ensures RowMajor(EmptyBoxes(s))
    ensures Consistent(s) ==> |EmptyBoxes(s)| == 9 - s.marked
  {
    EmptyUpToMembers(s.cells, 9);
    EmptyUpToOrder(s.cells, 9);
    EmptyUpToLength(s.cells, 9);
    assert s.cells[..9] == s.cells;
  }

  // ---------------------------------------------------------------------
  // Win-lines

  /** Python's chained test `a == b == c != 0`. */
  predicate Line(cells: seq<int>, a: nat, b: nat, c: nat)
    requires a < |cells| && b < |cells| && c < |cells|
  {
    cells[a] == cells[b] && cells[b] == cells[c] && cells[c] != 0
  }

  predicate ColumnOwned(cells: seq<int>, col: int)
    requires |cells| == 9 && 0 <= col < 3
  {
    Line(cells, col, 3 + col, 6 + col)
  }

  predicate RowOwned(cells: seq<int>, row: int)
    requires |cells| == 9 && 0 <= row < 3
  {
    Line(cells, 3 * row, 3 * row + 1, 3 * row + 2)
  }

  /** First owned column from `col` on, 0 when none (the `for col` loop). */
  function Columns(cells: seq<int>, col: nat): int
    requires |cells| == 9 && col <= 3
    decreases 3 - col
  {
    if col == 3 then 0
    else if ColumnOwned(cells, col) then cells[col]
    else Columns(cells, col + 1)
  }

  /** First owned row from `row` on, 0 when none (the `for row` loop). */
  function Rows(cells: seq<int>, row: nat): int
    requires |cells| == 9 && row <= 3
    decreases 3 - row
  {
    if row == 3 then 0
    else if RowOwned(cells, row) then cells[3 * row]
    else Rows(cells, row + 1)
  }

  /** `final_state`: columns, then rows, then the main diagonal, then the anti-diagonal. */
  function FinalState(s: State): int
    requires WellFormed(s)
  {
    var cells := s.cells;
    var byColumn := Columns(cells, 0);
    if byColumn != 0 then byColumn
    else
      var byRow := Rows(cells, 0);
      if byRow != 0 then byRow
      else if Line(cells, 0, 4, 8) then cells[0]
      else if Line(cells, 2, 4, 6) then cells[2]
      else 0
  }

  /** Reference definition: player v holds all three cells of some column,
      row or diagonal. */
  predicate HasLine(cells: seq<int>, v: int)
    requires |cells| == 9
  {
    (exists col :: 0 <= col < 3 && At(cells, 0, col) == v && At(cells, 1, col) == v && At(cells, 2, col) == v) ||
    (exists row :: 0 <= row < 3 && At(cells, row, 0) == v && At(cells, row, 1) == v && At(cells, row, 2) == v) ||
    (At(cells, 0, 0) == v && At(cells, 1, 1) == v && At(cells, 2, 2) == v) ||
    (At(cells, 0, 2) == v && At(cells, 1, 1) == v && At(cells, 2, 0) == v)
  }

  lemma {:induction false} ColumnsSpec(cells: seq<int>, col: nat)
    requires |cells| == 9 && col <= 3
    ensures Columns(cells, col) == 0 <==> forall c :: col <= c < 3 ==> !ColumnOwned(cells, c)
    ensures Columns(cells, col) != 0 ==>
              exists c :: col <= c < 3 && ColumnOwned(cells, c) && Columns(cells, col) == cells[c] &&
                          forall c' :: col <= c' < c ==> !ColumnOwned(cells, c')
    decreases 3 - col
  {
    if col < 3 && !ColumnOwned(cells, col) {
      ColumnsSpec(cells, col + 1);
    }
  }

  lemma {:induction false} RowsSpec(cells: seq<int>, row: nat)
    requires |cells| == 9 && row <= 3
    ensures Rows(cells, row) == 0 <==> forall r :: row <= r < 3 ==> !RowOwned(cells, r)
    ensures Rows(cells, row) != 0 ==>
              exists r :: row <= r < 3 && RowOwned(cells, r) && Rows(cells, row) == cells[3 * r] &&
                          forall r' :: row <= r' < r ==> !RowOwned(cells, r')
    decreases 3 - row
  {
    if row < 3 && !RowOwned(cells, row) {
      RowsSpec(cells, row + 1);
    }
  }

  /** The order `final_state` checks lines in: the first owned column wins;
      failing that the first owned row; then the main diagonal; then the
      anti-diagonal. */
  lemma FinalStateOrder(s: State)
    requires WellFormed(s)
    ensures (exists c :: 0 <= c < 3 && ColumnOwned(s.cells, c)) ==>
              exists c :: 0 <= c < 3 && ColumnOwned(s.cells, c) && FinalState(s) == s.cells[c] &&
                          forall c' :: 0 <= c' < c ==> !ColumnOwned(s.cells, c')
    ensures (forall c :: 0 <= c < 3 ==> !ColumnOwned(s.cells, c)) && (exists r :: 0 <= r < 3 && RowOwned(s.cells, r)) ==>
              exists r :: 0 <= r < 3 && RowOwned(s.cells, r) && FinalState(s) == s.cells[3 * r] &&
                          forall r' :: 0 <= r' < r ==> !RowOwned(s.cells, r')
    ensures (forall c :: 0 <= c < 3 ==> !ColumnOwned(s.cells, c)) && (forall r :: 0 <= r < 3 ==> !RowOwned(s.cells, r)) ==>
              FinalState(s) == (if Line(s.cells, 0, 4, 8) then s.cells[0]
                                else if Line(s.cells, 2, 4, 6) then s.cells[2] else 0)
  {
    ColumnsSpec(s.cells, 0);
    RowsSpec(s.cells, 0);
  }

  /** `final_state` against the reference definition of a win-line: the result
      is 0, 1 or 2; a non-zero result owns a line; 0 means nobody owns one;
      and when exactly one player owns a line, that player is reported. */
  lemma FinalStateWins(s: State)
    requires WellFormed(s)
    ensures FinalState(s) in {0, 1, 2}
    ensures FinalState(s) != 0 ==> HasLine(s.cells, FinalState(s))
    ensures FinalState(s) == 0 <==> !HasLine(s.cells, 1) && !HasLine(s.cells, 2)
    ensures forall v :: v in {1, 2} && HasLine(s.cells, v) && !HasLine(s.cells, 3 - v) ==> FinalState(s) == v
  {
    var cells := s.cells;
    ColumnsSpec(cells, 0);
    RowsSpec(cells, 0);
    forall v | HasLine(cells, v) && v != 0
      ensures FinalState(s) != 0
    {
      if exists col :: 0 <= col < 3 && At(cells, 0, col) == v && At(cells, 1, col) == v && At(cells, 2, col) == v {
        var col :| 0 <= col < 3 && At(cells, 0, col) == v && At(cells, 1, col) == v && At(cells, 2, col) == v;
        assert ColumnOwned(cells, col);
      } else if exists row :: 0 <= row < 3 && At(cells, row, 0) == v && At(cells, row, 1) == v && At(cells, row, 2) == v {
        var row :| 0 <= row < 3 && At(cells, row, 0) == v && At(cells, row, 1) == v && At(cells, row, 2) == v;
        assert RowOwned(cells, row);
      }
    }
    if Columns(cells, 0) != 0 {
      var c :| 0 <= c < 3 && ColumnOwned(cells, c) && Columns(cells, 0) == cells[c];
      assert At(cells, 0, c) == cells[c] && At(cells, 1, c) == cells[3 + c] && At(cells, 2, c) == cells[6 + c];
    } else if Rows(cells, 0) != 0 {
      var r :| 0 <= r < 3 && RowOwned(cells, r) && Rows(cells, 0) == cells[3 * r];
      assert At(cells, r, 0) == cells[3 * r] && At(cells, r, 1) == cells[3 * r + 1] && At(cells, r, 2) == cells[3 * r + 2];
    }
  }

  // ---------------------------------------------------------------------
  // The board object

  /** `Board`: the grid is updated in place and the counter incremented. */
  class Board {
    var boxes: array<int>
    var markedBoxes: int

    ghost predicate Valid()
      reads this, boxes
    {
      boxes.Length == 9 && ValidCells(boxes[..])
    }

    /** The board's value, as a copy would see it. */
    function Value(): State
      reads this, boxes
    {
      State(boxes[..], markedBoxes)
    }

    /** `__init__`: all cells empty, counter 0. */
    constructor ()
      ensures Valid() && fresh(boxes)
      ensures Value() == Initial()
    {
      boxes := new int[9](_ => 0);
      markedBoxes := 0;
      new;
      assert boxes[..] == Initial().cells;
    }

    /** `copy.deepcopy(board)`: a board with its own grid and the same value. */
    constructor Copy(other: Board)
      requires other.Valid()
      ensures Valid() && fresh(boxes)
      ensures Value() == other.Value()
    {
      var grid := new int[9];
      forall i | 0 <= i < 9 {
        grid[i] := other.boxes[i];
      }
      boxes := grid;
      markedBoxes := other.markedBoxes;
      new;
      assert boxes[..] == other.boxes[..];
    }

    /** `mark_box`: cell (row, col) becomes 1 on player one's turn and 2
        otherwise, the counter goes up by one, nothing else changes. */
    method MarkBox(row: int, col: int, p1Turn: bool)
      requires Valid() && 0 <= row < 3 && 0 <= col < 3
      modifies this, boxes
      ensures Valid() && boxes == old(boxes)
      ensures Value() == Mark(old(Value()), row, col, p1Turn)
      ensures boxes[3 * row + col] == (if p1Turn then 1 else 2)
      ensures forall i :: 0 <= i < 9 && i != 3 * row + col ==> boxes[i] == old(boxes[i])
      ensures markedBoxes == old(markedBoxes) + 1
      ensures old(Consistent(Value())) && old(boxes[3 * row + col]) == 0 ==> Consistent(Value())
    {
      ghost var before := Value();
      if p1Turn {
        boxes[3 * row + col] := 1;
      }
      if !p1Turn {
        boxes[3 * row + col] := 2;
      }
      markedBoxes := markedBoxes + 1;
      assert boxes[..] == Mark(before, row, col, p1Turn).cells;
      if Consistent(before) && EmptyBox(before, row, col) {
        MarkKeepsCount(before, row, col, p1Turn);
      }
    }

    /** `get_empty_box`: the nested row/column loops that collect free cells. */
    method GetEmptyBox() returns (emptyBoxes: seq<Pos>)
      requires Valid()
      ensures emptyBoxes == EmptyBoxes(Value())
    {
      emptyBoxes := [];
      for row := 0 to 3
        invariant emptyBoxes == EmptyUpTo(boxes[..], 3 * row)
      {
        for col := 0 to 3
          invariant emptyBoxes == EmptyUpTo(boxes[..], 3 * row + col)
        {
          assert (3 * row + col) / 3 == row && (3 * row + col) % 3 == col;
          if EmptyBox(Value(), row, col) {
            emptyBoxes := emptyBoxes + [Pos(row, col)];
          }
        }
      }
    }
  }
}
