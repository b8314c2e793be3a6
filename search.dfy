/** The exhaustive minimax search over copies of the board.

    Scores: +1 when player one owns a line, -1 when player two does, 0 for a
    full board. The maximiser marks 1, the minimiser marks 2; moves are tried
    in row-major order and only a strictly better score replaces the best
    move so far, so ties keep the first move found. */
module MinimaxSearch {
  import opened BoardModel

  datatype Option<T> = None | Some(value: T)

  /** What `minimax` returns: a score and the chosen move, None at a terminal board. */
  datatype Evaluation = Evaluation(score: int, move: Option<Pos>)

  /** The comparison that replaces the best move: `>` when maximising, `<` when minimising. */
  predicate Better(maximizing: bool, v: int, w: int)
  {
    if maximizing then v > w else v < w
  }

  /** The starting value of `max_eval` / `min_eval`. */
  function Sentinel(maximizing: bool): int
  {
    if maximizing then -100 else 100
  }

  /** A board on which `minimax` stops without looking at moves. */
  predicate IsTerminal(s: State)
    requires WellFormed(s)
  {
    FinalState(s) != 0 || IsFull(s)
  }

  /** Score of the terminal cases, by `final_state`'s result. */
  function TerminalScore(s: State): int
    requires WellFormed(s)
  {
    var outcome := FinalState(s);
    if outcome == 1 then 1 else if outcome == 2 then -1 else 0
  }

  predicate AllEmptyCells(s: State, moves: seq<Pos>)
    requires WellFormed(s)
  {
    forall k :: 0 <= k < |moves| ==> OnBoard(moves[k]) && EmptyBox(s, moves[k].row, moves[k].col)
  }

  /** `minimax(board, maximizing)` as a function of the board's value. */
  function Search(s: State, maximizing: bool): Evaluation
    requires WellFormed(s)
    decreases 9 - Occupied(s.cells), 1, 0
  {
    var outcome := FinalState(s);
    if outcome == 1 then Evaluation(1, None)
    else if outcome == 2 then Evaluation(-1, None)
    else if IsFull(s) then Evaluation(0, None)
    else
      EmptyBoxesSpec(s);
      ScanMoves(s, maximizing, EmptyBoxes(s), Sentinel(maximizing), None)
  }

  /** The score of the child reached by marking p for the side to move. */
  function ChildScore(s: State, maximizing: bool, p: Pos): int
    requires WellFormed(s) && OnBoard(p) && EmptyBox(s, p.row, p.col)
    decreases 9 - Occupied(s.cells), 0, 0
  {
    MarkOccupied(s, p.row, p.col, maximizing);
    Search(Mark(s, p.row, p.col, maximizing), !maximizing).score
  }

  /** The `for (row, col) in empty_boxes` loop, from a running best score and move. */
  function ScanMoves(s: State, maximizing: bool, moves: seq<Pos>, best: int, bestMove: Option<Pos>): Evaluation
    requires WellFormed(s) && AllEmptyCells(s, moves)
    decreases 9 - Occupied(s.cells), 0, |moves|
  {
    if moves == [] then Evaluation(best, bestMove)
    else
      var v := ChildScore(s, maximizing, moves[0]);
      if Better(maximizing, v, best) then ScanMoves(s, maximizing, moves[1..], v, Some(moves[0]))
      else ScanMoves(s, maximizing, moves[1..], best, bestMove)
  }

  // ---------------------------------------------------------------------
  // Properties of the search

  /** No child reached through `moves` scores better than v. */
  predicate NoneBetter(s: State, maximizing: bool, moves: seq<Pos>, v: int)
    requires WellFormed(s) && AllEmptyCells(s, moves)
  {
    forall k :: 0 <= k < |moves| ==> !Better(maximizing, ChildScore(s, maximizing, moves[k]), v)
  }

  /** moves[k] is the first of `moves` whose child scores v. */
  predicate FirstToReach(s: State, maximizing: bool, moves: seq<Pos>, k: int, v: int)
    requires WellFormed(s) && AllEmptyCells(s, moves)
  {
    0 <= k < |moves| && ChildScore(s, maximizing, moves[k]) == v &&
    forall j :: 0 <= j < k ==> ChildScore(s, maximizing, moves[j]) != v
  }

  /** The loop's result is at least as good as its starting score and as
      every child's score. */
  lemma {:induction false} ScanMovesExtremum(s: State, maximizing: bool, moves: seq<Pos>, best: int, bestMove: Option<Pos>)
    requires WellFormed(s) && AllEmptyCells(s, moves)
    ensures var r := ScanMoves(s, maximizing, moves, best, bestMove);
      !Better(maximizing, best, r.score) && NoneBetter(s, maximizing, moves, r.score)
    decreases |moves|
  {
    if moves != [] {
      var v := ChildScore(s, maximizing, moves[0]);
      var rest := moves[1..];
      assert AllEmptyCells(s, rest) by {
        forall k | 0 <= k < |rest| ensures OnBoard(rest[k]) && EmptyBox(s, rest[k].row, rest[k].col) {
          assert rest[k] == moves[k + 1];
        }
      }
      var r := ScanMoves(s, maximizing, moves, best, bestMove);
      var start := if Better(maximizing, v, best) then v else best;
      var startMove := if Better(maximizing, v, best) then Some(moves[0]) else bestMove;
      assert r == ScanMoves(s, maximizing, rest, start, startMove);
      ScanMovesExtremum(s, maximizing, rest, start, startMove);
      forall k | 0 <= k < |moves|
        ensures !Better(maximizing, ChildScore(s, maximizing, moves[k]), r.score)
      {
        if k > 0 {
          assert moves[k] == rest[k - 1];
        }
      }
    }
  }

  /** The loop keeps its starting move unless some child beats the starting
      score; then it returns the first move (in list order) whose child
      reaches the final score. */
  lemma {:induction false} ScanMovesFirst(s: State, maximizing: bool, moves: seq<Pos>, best: int, bestMove: Option<Pos>)
    requires WellFormed(s) && AllEmptyCells(s, moves)
    ensures var r := ScanMoves(s, maximizing, moves, best, bestMove);
      && (r.score == best ==> r.move == bestMove)
      && (r.score != best ==>
            exists k :: FirstToReach(s, maximizing, moves, k, r.score) && r.move == Some(moves[k]))
    decreases |moves|
  {
    if moves != [] {
      var v := ChildScore(s, maximizing, moves[0]);
      var rest := moves[1..];
      assert AllEmptyCells(s, rest) by {
        forall k | 0 <= k < |rest| ensures OnBoard(rest[k]) && EmptyBox(s, rest[k].row, rest[k].col) {
          assert rest[k] == moves[k + 1];
        }
      }
      var r := ScanMoves(s, maximizing, moves, best, bestMove);
      var start := if Better(maximizing, v, best) then v else best;
      var startMove := if Better(maximizing, v, best) then Some(moves[0]) else bestMove;
      assert r == ScanMoves(s, maximizing, rest, start, startMove);
      ScanMovesFirst(s, maximizing, rest, start, startMove);
      ScanMovesExtremum(s, maximizing, rest, start, startMove);
      if r.score != start {
        var k' :| FirstToReach(s, maximizing, rest, k', r.score) && r.move == Some(rest[k']);
        assert moves[k' + 1] == rest[k'];
        forall j | 0 <= j < k' + 1
          ensures ChildScore(s, maximizing, moves[j]) != r.score
        {
          if j > 0 {
            assert moves[j] == rest[j - 1];
          }
        }
        assert FirstToReach(s, maximizing, moves, k' + 1, r.score);
      } else if Better(maximizing, v, best) {
        assert r.move == Some(moves[0]);
        assert FirstToReach(s, maximizing, moves, 0, r.score);
      }
    }
  }

  /** One turn of the move loop: the score of moves[i] either replaces the
      running best or is dropped. */
  lemma ScanStep(s: State, maximizing: bool, moves: seq<Pos>, i: int, best: int, bestMove: Option<Pos>)
    requires WellFormed(s) && AllEmptyCells(s, moves) && 0 <= i < |moves|
    ensures AllEmptyCells(s, moves[i..]) && AllEmptyCells(s, moves[i + 1..])
    ensures var v := ChildScore(s, maximizing, moves[i]);
      ScanMoves(s, maximizing, moves[i..], best, bestMove) ==
        if Better(maximizing, v, best) then ScanMoves(s, maximizing, moves[i + 1..], v, Some(moves[i]))
        else ScanMoves(s, maximizing, moves[i + 1..], best, bestMove)
  {
    assert moves[i..][1..] == moves[i + 1..];
    assert moves[i..][0] == moves[i];
  }

  /** Every child of a consistent board is consistent. */
  lemma ChildConsistent(s: State, maximizing: bool, p: Pos)
    requires Consistent(s) && p in EmptyBoxes(s)
    ensures OnBoard(p) && EmptyBox(s, p.row, p.col)
    ensures Consistent(Mark(s, p.row, p.col, maximizing))
  {
    EmptyBoxesSpec(s);
    MarkKeepsCount(s, p.row, p.col, maximizing);
  }

  /** On a consistent board the score is -1, 0 or 1: the sentinels never escape. */
  lemma {:induction false} SearchBounded(s: State, maximizing: bool)
    requires Consistent(s)
    ensures -1 <= Search(s, maximizing).score <= 1
    decreases 9 - Occupied(s.cells)
  {
    if !IsTerminal(s) {
      var moves := EmptyBoxes(s);
      EmptyBoxesSpec(s);
      forall k | 0 <= k < |moves|
        ensures -1 <= ChildScore(s, maximizing, moves[k]) <= 1
      {
        var p := moves[k];
        ChildConsistent(s, maximizing, p);
        MarkOccupied(s, p.row, p.col, maximizing);
        SearchBounded(Mark(s, p.row, p.col, maximizing), !maximizing);
      }
      ScanMovesExtremum(s, maximizing, moves, Sentinel(maximizing), None);
      ScanMovesFirst(s, maximizing, moves, Sentinel(maximizing), None);
      assert |moves| > 0;
      var r := Search(s, maximizing);
      assert r == ScanMoves(s, maximizing, moves, Sentinel(maximizing), None);
      assert !Better(maximizing, ChildScore(s, maximizing, moves[0]), r.score);
      if r.score != Sentinel(maximizing) {
        var k :| 0 <= k < |moves| && ChildScore(s, maximizing, moves[k]) == r.score;
      }
    }
  }

  /** On a terminal board the search returns no move and the final_state score;
      on a consistent board it returns no move only when the board is terminal. */
  lemma SearchTerminal(s: State, maximizing: bool)
    requires WellFormed(s)
    ensures IsTerminal(s) ==> Search(s, maximizing) == Evaluation(TerminalScore(s), None)
    ensures Consistent(s) && Search(s, maximizing).move == None ==> IsTerminal(s)
  {
    if Consistent(s) && !IsTerminal(s) {
      SearchChoice(s, maximizing);
    }
  }

  /** On a consistent board that is not terminal, the search returns a move:
      the first empty cell, in row-major order, whose child score is the best
      of all children's (the maximum when maximising, the minimum when
      minimising), together with that score, which is -1, 0 or 1. */
  lemma SearchChoice(s: State, maximizing: bool)
    requires Consistent(s) && !IsTerminal(s)
    ensures var r := Search(s, maximizing);
      && -1 <= r.score <= 1
      && NoneBetter(s, maximizing, EmptyBoxes(s), r.score)
      && exists k :: FirstToReach(s, maximizing, EmptyBoxes(s), k, r.score) && r.move == Some(EmptyBoxes(s)[k])
    ensures Search(s, maximizing).move.Some?
    ensures OnBoard(Search(s, maximizing).move.value)
    ensures EmptyBox(s, Search(s, maximizing).move.value.row, Search(s, maximizing).move.value.col)
  {
    var moves := EmptyBoxes(s);
    EmptyBoxesSpec(s);
    SearchBounded(s, maximizing);
    ScanMovesExtremum(s, maximizing, moves, Sentinel(maximizing), None);
    ScanMovesFirst(s, maximizing, moves, Sentinel(maximizing), None);
    var r := Search(s, maximizing);
    assert r == ScanMoves(s, maximizing, moves, Sentinel(maximizing), None);
    assert r.score != Sentinel(maximizing);
    var k :| FirstToReach(s, maximizing, moves, k, r.score) && r.move == Some(moves[k]);
  }

  /** When the side to move can complete its own line with one mark, the
      search scores the win (+1 for the maximiser, -1 for the minimiser). */
  lemma ImmediateWin(s: State, maximizing: bool, p: Pos)
    requires Consistent(s) && !IsTerminal(s) && OnBoard(p) && EmptyBox(s, p.row, p.col)
    requires FinalState(Mark(s, p.row, p.col, maximizing)) == (if maximizing then 1 else 2)
    ensures Search(s, maximizing).score == (if maximizing then 1 else -1)
  {
    var moves := EmptyBoxes(s);
    EmptyBoxesSpec(s);
    SearchChoice(s, maximizing);
    assert p in moves;
    var k :| 0 <= k < |moves| && moves[k] == p;
    assert ChildScore(s, maximizing, p) == (if maximizing then 1 else -1);
  }

  /** When every move leads to the same score, that is the board's score. */
  lemma SearchUniform(s: State, maximizing: bool, v: int)
    requires Consistent(s) && !IsTerminal(s)
    requires forall k :: 0 <= k < |EmptyBoxes(s)| ==> ChildScore(s, maximizing, EmptyBoxes(s)[k]) == v
    ensures Search(s, maximizing).score == v
  {
    SearchChoice(s, maximizing);
    var r := Search(s, maximizing);
    var k :| FirstToReach(s, maximizing, EmptyBoxes(s), k, r.score) && r.move == Some(EmptyBoxes(s)[k]);
  }

  // ---------------------------------------------------------------------
  // The search object

  /** `AI`: stateless; its methods only read the board they are given. */
  class AI {

    /** `minimax`: every child is a deep copy of the board with one more
        mark, searched for the other side. The method has no modifies
        clause, so the board passed in is not changed. */
    method Minimax(board: Board, maximizing: bool) returns (score: int, bestMove: Option<Pos>)
      requires board.Valid()
      ensures Evaluation(score, bestMove) == Search(board.Value(), maximizing)
      decreases 9 - Occupied(board.boxes[..]), 1
    {
      ghost var s := board.Value();
      var outcome := FinalState(board.Value());
      if outcome == 1 {
        return 1, None;
      }
      if outcome == 2 {
        return -1, None;
      } else if IsFull(board.Value()) {
        return 0, None;
      }
      var emptyBoxes := board.GetEmptyBox();
      EmptyBoxesSpec(s);
      if maximizing {
        var maxEval := -100;
        bestMove := None;
        for i := 0 to |emptyBoxes|
          invariant ScanMoves(s, true, emptyBoxes[i..], maxEval, bestMove) == Search(s, true)
        {
          var p := emptyBoxes[i];
          var eval := ChildEval(board, p, true);
          ScanStep(s, true, emptyBoxes, i, maxEval, bestMove);
          if eval > maxEval {
            maxEval := eval;
            bestMove := Some(p);
          }
        }
        return maxEval, bestMove;
      } else {
        var minEval := 100;
        bestMove := None;
        for i := 0 to |emptyBoxes|
          invariant ScanMoves(s, false, emptyBoxes[i..], minEval, bestMove) == Search(s, false)
        {
          var p := emptyBoxes[i];
          var eval := ChildEval(board, p, false);
          ScanStep(s, false, emptyBoxes, i, minEval, bestMove);
          if eval < minEval {
            minEval := eval;
            bestMove := Some(p);
          }
        }
        return minEval, bestMove;
      }
    }

    /** The body of the move loop: a deep copy of the board, marked at p for
        the side to move, is searched for the other side and its score kept. */
    method ChildEval(board: Board, p: Pos, maximizing: bool) returns (eval: int)
      requires board.Valid() && OnBoard(p) && EmptyBox(board.Value(), p.row, p.col)
      ensures eval == ChildScore(board.Value(), maximizing, p)
      decreases 9 - Occupied(board.boxes[..]), 0
    {
      var tempBoard := new Board.Copy(board);
      tempBoard.MarkBox(p.row, p.col, maximizing);
      MarkOccupied(board.Value(), p.row, p.col, maximizing);
      var move;
      eval, move := Minimax(tempBoard, !maximizing);
    }

    /** `eval`: the AI always searches as the minimiser (it plays player two)
        and returns only the move; the board is left as it was. */
    method Eval(mainBoard: Board) returns (move: Option<Pos>)
      requires mainBoard.Valid()
      ensures move == Search(mainBoard.Value(), false).move
      ensures unchanged(mainBoard, mainBoard.boxes)
    {
      var _, m := Minimax(mainBoard, false);
      move := m;
    }

    /** `rnd_choice`: some cell of `get_empty_box`; `random.randrange` raises when
        the list is empty. Which one is left open, as the program draws it at random. */
    method RndChoice(board: Board) returns (p: Pos)
      requires board.Valid() && EmptyBoxes(board.Value()) != []
      ensures p in EmptyBoxes(board.Value())
      ensures OnBoard(p) && EmptyBox(board.Value(), p.row, p.col)
    {
      var emptyBoxes := board.GetEmptyBox();
      var idx :| 0 <= idx < |emptyBoxes|;
      p := emptyBoxes[idx];
      EmptyBoxesSpec(board.Value());
    }
  }
}

module SearchExamples {
  import opened BoardModel
  import opened MinimaxSearch

  /** One empty cell left and it completes player one's top row: the
      maximiser takes it and scores +1. */
  lemma ForcedWinForPlayerOne()
    ensures Search(State([1, 1, 0, 2, 2, 1, 2, 1, 2], 8), true) == Evaluation(1, Some(Pos(0, 2)))
  {
    var s := State([1, 1, 0, 2, 2, 1, 2, 1, 2], 8);
    assert EmptyBoxes(s) == [Pos(0, 2)];
    var child := State([1, 1, 1, 2, 2, 1, 2, 1, 2], 9);
    assert Mark(s, 0, 2, true) == child;
    assert FinalState(child) == 1;
  }

  /** One empty cell left and it completes no line: the maximiser is forced
      to fill it and the game is a draw. */
  lemma ForcedDraw()
    ensures Search(State([1, 1, 2, 2, 2, 0, 1, 2, 1], 8), true) == Evaluation(0, Some(Pos(1, 2)))
  {
    var s := State([1, 1, 2, 2, 2, 0, 1, 2, 1], 8);
    assert FinalState(s) == 0;
    assert EmptyBoxes(s) == [Pos(1, 2)];
    var last := State([1, 1, 2, 2, 2, 1, 1, 2, 1], 9);
    assert Mark(s, 1, 2, true) == last;
    assert FinalState(last) == 0 && IsFull(last);
  }

  /** Two empty cells, player two to move: (0, 2) only leads to a draw,
      (1, 2) completes player two's middle row, so the minimiser picks
      (1, 2) with score -1 even though (0, 2) comes first. */
  lemma MinimiserTakesTheWin()
    ensures Search(State([1, 1, 0, 2, 2, 0, 1, 2, 1], 7), false) == Evaluation(-1, Some(Pos(1, 2)))
  {
    var s := State([1, 1, 0, 2, 2, 0, 1, 2, 1], 7);
    assert EmptyBoxes(s) == [Pos(0, 2), Pos(1, 2)];
    assert Mark(s, 0, 2, false) == State([1, 1, 2, 2, 2, 0, 1, 2, 1], 8);
    ForcedDraw();
    assert ChildScore(s, false, Pos(0, 2)) == 0;
    MiddleRowForPlayerTwo();
  }

  /** Player two marking (1, 2) completes the middle row: that child scores -1. */
  lemma MiddleRowForPlayerTwo()
    ensures ChildScore(State([1, 1, 0, 2, 2, 0, 1, 2, 1], 7), false, Pos(1, 2)) == -1
  {
    var s := State([1, 1, 0, 2, 2, 0, 1, 2, 1], 7);
    var second := State([1, 1, 0, 2, 2, 2, 1, 2, 1], 8);
    assert Mark(s, 1, 2, false) == second;
    assert FinalState(second) == 2;
  }

  /** One mark on an empty cell, written on the raw cells, keeps the counter
      invariant. */
  lemma ConsistentStep(cells: seq<int>, marked: int, row: int, col: int, p1Turn: bool, next: seq<int>)
    requires Consistent(State(cells, marked)) && 0 <= row < 3 && 0 <= col < 3 && cells[3 * row + col] == 0
    requires next == cells[3 * row + col := if p1Turn then 1 else 2]
    ensures Consistent(State(next, marked + 1))
  {
    MarkKeepsCount(State(cells, marked), row, col, p1Turn);
  }

  /** The opening [[1,1,0],[2,2,0],[0,0,0]] arises from a new board by four
      marks on empty cells, so its counter agrees with its cells. */
  lemma OpeningConsistent()
    ensures Consistent(State([1, 1, 0, 2, 2, 0, 0, 0, 0], 4))
  {
    InitialConsistent();
    ConsistentStep([0, 0, 0, 0, 0, 0, 0, 0, 0], 0, 0, 0, true, [1, 0, 0, 0, 0, 0, 0, 0, 0]);
    ConsistentStep([1, 0, 0, 0, 0, 0, 0, 0, 0], 1, 1, 0, false, [1, 0, 0, 2, 0, 0, 0, 0, 0]);
    ConsistentStep([1, 0, 0, 2, 0, 0, 0, 0, 0], 2, 0, 1, true, [1, 1, 0, 2, 0, 0, 0, 0, 0]);
    ConsistentStep([1, 1, 0, 2, 0, 0, 0, 0, 0], 3, 1, 1, false, [1, 1, 0, 2, 2, 0, 0, 0, 0]);
  }

  /** The board after player two marks (0, 2) on the opening. */
  function Fork(): State
  {
    State([1, 1, 2, 2, 2, 0, 0, 0, 0], 5)
  }

  /** Player one replies at q without making a line, and player two then
      completes a line at w: the reply scores -1. */
  lemma ForkReply(q: Pos, w: Pos)
    requires Consistent(Fork()) && OnBoard(q) && OnBoard(w) && EmptyBox(Fork(), q.row, q.col)
    requires EmptyBox(Mark(Fork(), q.row, q.col, true), w.row, w.col)
    requires FinalState(Mark(Fork(), q.row, q.col, true)) == 0
    requires FinalState(Mark(Mark(Fork(), q.row, q.col, true), w.row, w.col, false)) == 2
    ensures ChildScore(Fork(), true, q) == -1
  {
    MarkKeepsCount(Fork(), q.row, q.col, true);
    ImmediateWin(Mark(Fork(), q.row, q.col, true), false, w);
  }

  /** Player one blocks the middle row: player two completes the anti-diagonal. */
  lemma BlockingTheRowLoses()
    requires Consistent(Fork())
    ensures ChildScore(Fork(), true, Pos(1, 2)) == -1
  {
    assert Mark(Fork(), 1, 2, true).cells == [1, 1, 2, 2, 2, 1, 0, 0, 0];
    ForkReply(Pos(1, 2), Pos(2, 0));
  }

  /** Any reply on the bottom row: player two completes the middle row. */
  lemma BottomRowReplyLoses(col: int)
    requires Consistent(Fork()) && 0 <= col < 3
    ensures ChildScore(Fork(), true, Pos(2, col)) == -1
  {
    var g := Mark(Fork(), 2, col, true);
    assert g.cells[..6] == [1, 1, 2, 2, 2, 0];
    assert g.cells[6..] == if col == 0 then [1, 0, 0] else if col == 1 then [0, 1, 0] else [0, 0, 1];
    assert FinalState(g) == 0;
    assert Mark(g, 1, 2, false).cells[..6] == [1, 1, 2, 2, 2, 2];
    assert FinalState(Mark(g, 1, 2, false)) == 2;
    ForkReply(Pos(2, col), Pos(1, 2));
  }

  /** On the fork board player two threatens both (1, 2) (the middle row)
      and (2, 0) (the anti-diagonal), so whatever player one does, player
      two wins. */
  lemma ForkIsLost()
    requires Consistent(Fork())
    ensures Search(Fork(), true).score == -1
  {
    var c := Fork();
    assert FinalState(c) == 0;
    assert EmptyBoxes(c) == [Pos(1, 2), Pos(2, 0), Pos(2, 1), Pos(2, 2)];
    BlockingTheRowLoses();
    BottomRowReplyLoses(0);
    BottomRowReplyLoses(1);
    BottomRowReplyLoses(2);
    SearchUniform(c, true, -1);
  }

  /** [[1,1,0],[2,2,0],[0,0,0]], player two to move. Player two could win at
      once at (1, 2), but (0, 2), which blocks player one's top row and
      makes two threats, also scores -1 and comes first in row-major order;
      with strict `<` the program keeps it and answers (0, 2). */
  lemma MinimiserPrefersTheEarlierWin()
    ensures Search(State([1, 1, 0, 2, 2, 0, 0, 0, 0], 4), false) == Evaluation(-1, Some(Pos(0, 2)))
  {
    var s := State([1, 1, 0, 2, 2, 0, 0, 0, 0], 4);
    OpeningConsistent();
    assert FinalState(s) == 0;
    assert Mark(s, 1, 2, false) == State([1, 1, 0, 2, 2, 2, 0, 0, 0], 5);
    assert FinalState(Mark(s, 1, 2, false)) == 2;
    ImmediateWin(s, false, Pos(1, 2));
    assert Mark(s, 0, 2, false).cells == Fork().cells;
    MarkKeepsCount(s, 0, 2, false);
    ForkIsLost();
    assert EmptyBoxes(s)[0] == Pos(0, 2);
    assert ChildScore(s, false, Pos(0, 2)) == -1;
    SearchChoice(s, false);
    var r := Search(s, false);
    var k :| FirstToReach(s, false, EmptyBoxes(s), k, r.score) && r.move == Some(EmptyBoxes(s)[k]);
    assert k == 0;
  }
}
