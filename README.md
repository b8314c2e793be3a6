# Tic-tac-toe against a minimax opponent: board and search

This project models the game core of a 3×3 tic-tac-toe program in which a human plays
against an automated opponent. It covers two parts of `main.py`:

- `Board` is the grid and its mutations. Cells hold 0 (empty), 1 (player one) or 2 (player two).
  The class also keeps a counter `marked_boxes` that `mark_box` increments.
- `AI` is the exhaustive minimax search that picks the opponent's move.

Module `BoardModel` (`board.dfy`) has three parts:

- `State` is the value of a board: its nine cells in row-major order and its counter. Cell (row, col) sits at index `3 * row + col`.
- Pure functions give the program's queries: `EmptyBox`, `EmptyBoxes` (`get_empty_box`), `IsFull`, `IsEmpty` and `FinalState`. `Mark` is `mark_box` applied to a copy.
- `class Board` holds an `array<int>` of nine cells and the counter. Its `MarkBox` updates the grid in place. Its `GetEmptyBox` runs the nested loops of `get_empty_box`. Its `Copy` constructor is the deep copy the search makes.

Module `MinimaxSearch` (`search.dfy`) has two parts:

- The specification function `Search(s, maximizing)` gives what `minimax` returns, as a function of the board's value. The move loop is the function `ScanMoves`.
- `class AI` has `Minimax`, which loops over the free cells. Its loop body `ChildEval` builds a fresh `Board` copy, marks it and recurses. `AI` also has `Eval` and `RndChoice`.

`AI.Minimax` is proved equal to `Search`. The lemmas then say what `Search` means:

- a terminal board gives the terminal score and no move;
- any other board gives a score in {-1, 0, 1};
- that score is the maximum (or minimum) of the children's scores;
- the move is the first empty cell in row-major order that reaches that score.

Module `SearchExamples` proves the search result on four small concrete boards. One is the opening `[[1,1,0],[2,2,0],[0,0,0]]` (row-major, 1 = player one, 2 = player two) with player two to move. Player two can win at once at (1, 2). But (0, 2) comes first in row-major order, and it also scores -1: it blocks player one's top row and threatens both the middle row and the anti-diagonal. With the strict `<` the program answers (0, 2). One might expect the immediate win (1, 2); the program keeps the earlier (0, 2), which scores the same.

Two points where the model follows the code's own behaviour:

- `is_full` and `is_empty` read the counter, not the cells. This is also true inside the search. So `Search` is defined for every well-formed board, including one whose counter has drifted from the cells. On such a board with no empty cell, no owned line and a counter other than 9, it returns the sentinel (-100 or 100) with no move, as `minimax` does. All results about scores and moves assume `Consistent` (counter = number of marked cells). This holds from a new board as long as every mark lands on an empty cell (`GameCount`).
- `mark_box` does not check that the cell is empty: marking an occupied cell overwrites it and still increments the counter. `MarkBox` therefore has no emptiness precondition. It keeps the counter invariant only when the cell was empty.

`final_state` checks columns, then rows, then the main diagonal, then the anti-diagonal, and reports the first owned line it meets. The model keeps that order (`FinalStateOrder`). The order shows only on boards where more than one line is owned.

## Model

| member | source | states |
|---|---|---|
| BoardModel.Board.constructor | main.py:26-29 | a new board has nine empty cells and counter 0, and is the `Initial` value |
| BoardModel.Board.Copy | main.py:102 | `copy.deepcopy(board)` (also main.py:117): a board with a freshly allocated grid and the same value as the original, so marking the copy cannot touch the original |
| BoardModel.InitialConsistent | main.py:26-29 | the initial board satisfies the counter invariant, is empty and is not full |
| BoardModel.Board.MarkBox | main.py:54-59 | sets exactly cell (row, col) to 1 on player one's turn and 2 otherwise, adds 1 to the counter, leaves every other cell alone, and keeps the counter invariant when the cell was empty |
| BoardModel.Mark | main.py:54-59 | on a copy: the marked cell holds the mover's number, all other cells are unchanged, the counter is one higher |
| BoardModel.MarkOccupied | main.py:54-59 | marking an empty cell raises the number of marked cells by exactly one |
| BoardModel.MarkKeepsCount | main.py:54-59 | marking an empty cell of a consistent board gives a consistent board |
| BoardModel.ReplayKeepsCount | main.py:54-59 | any sequence of k marks, each on an empty cell, keeps the counter invariant and adds k to the counter |
| BoardModel.GameCount | main.py:26-29 | from a new board, after k marks on empty cells the counter is k and equals the number of marked cells |
| BoardModel.FullAndEmpty | main.py:72-76 | under the counter invariant, `is_full` holds iff no cell is 0, and `is_empty` holds iff every cell is 0 |
| BoardModel.EmptyBox | main.py:61-62 | `empty_box`: cell (row, col) holds 0; no contract of its own, characterised through `EmptyBoxesSpec` and `MarkOccupied` |
| BoardModel.IsFull | main.py:72-73 | `is_full`: the counter is 9; no contract of its own, characterised by `FullAndEmpty` |
| BoardModel.IsEmpty | main.py:75-76 | `is_empty`: the counter is 0; no contract of its own, characterised by `FullAndEmpty` and `InitialConsistent` |
| BoardModel.EmptyBoxes | main.py:64-70 | every listed position is on the board and is an empty cell |
| BoardModel.EmptyBoxesSpec | main.py:64-70 | a position is listed iff it is an empty cell; positions are in strictly increasing row-major order, so each comes once; under the counter invariant there are 9 − counter of them |
| BoardModel.Board.GetEmptyBox | main.py:64-70 | the nested loops return exactly the `EmptyBoxes` list of the board's value |
| BoardModel.ColumnsSpec | main.py:34-38 | the column scan returns 0 iff no column from the start on is owned, and otherwise the owner of the first owned column |
| BoardModel.RowsSpec | main.py:39-43 | the row scan returns 0 iff no row from the start on is owned, and otherwise the owner of the first owned row |
| BoardModel.FinalStateOrder | main.py:31-52 | the first owned column decides; if there is none, the first owned row decides; then the main diagonal; then the anti-diagonal |
| BoardModel.FinalStateWins | main.py:31-52 | the result is 0, 1 or 2; a non-zero result holds all three cells of some column, row or diagonal; 0 iff neither player holds a line; when exactly one player holds a line, that player is returned |
| BoardModel.FinalState | main.py:31-52 | `final_state` without drawing: no contract of its own; characterised by `FinalStateOrder` (which line decides) and `FinalStateWins` (the result against `HasLine`) |
| MinimaxSearch.Search | main.py:86-124 | `minimax` on the board's value; no contract of its own, characterised by `SearchTerminal`, `SearchBounded`, `SearchChoice`, `ImmediateWin` and `SearchUniform`, and implemented by `AI.Minimax` |
| MinimaxSearch.ScanMoves | main.py:101-108 | the `for (row, col) in empty_boxes` loop with its running best (both loops, main.py:101-108 and 116-123); no contract of its own, characterised by `ScanMovesExtremum` and `ScanMovesFirst` |
| MinimaxSearch.ChildScore | main.py:102-104 | the score of the copy marked at one cell for the side to move, searched for the other side; no contract of its own, computed by `AI.ChildEval` |
| MinimaxSearch.IsTerminal | main.py:170-171 | `Game.is_over`, the same test `minimax` makes first: a line is owned or the counter is full; no contract of its own, used by `SearchTerminal` and `SearchChoice` |
| MinimaxSearch.ScanMovesExtremum | main.py:96-124 | the move loop ends with a score that neither the start value nor any child's score beats: an upper bound (a lower bound when minimising) of the start value and every child's score; with `ScanMovesFirst`, which shows the score is attained, it is their maximum (minimum) |
| MinimaxSearch.ScanMovesFirst | main.py:96-124 | the move loop keeps its start move when its score equals the start value; otherwise it returns the first move, in list order, whose child reaches the final score (strict `>` / `<`, so later ties never replace it) |
| MinimaxSearch.SearchTerminal | main.py:87-94 | a board with a winner or a full counter scores +1 (player one's line), -1 (player two's line) or 0 (full), with no move; on a consistent board, no move is returned only when the board is terminal |
| MinimaxSearch.SearchBounded | main.py:86-124 | on a consistent board the score is always -1, 0 or 1, so the sentinels -100 and 100 never escape |
| MinimaxSearch.SearchChoice | main.py:96-124 | on a consistent non-terminal board the move is an empty cell; the score is that cell's child score; no child scores better (maximum when maximising, minimum when minimising); no earlier cell in row-major order reaches the same score |
| MinimaxSearch.ImmediateWin | main.py:96-124 | on a consistent non-terminal board where the side to move can complete its own line with one mark, the search scores that win (+1 for the maximiser, -1 for the minimiser) |
| MinimaxSearch.SearchUniform | main.py:96-124 | on a consistent non-terminal board where every move leads to the same child score, that is the board's score |
| MinimaxSearch.AI.Minimax | main.py:86-124 | the recursive search over deep copies returns exactly `Search` of the board's value; without a modifies clause, the board passed in is not changed |
| MinimaxSearch.AI.ChildEval | main.py:102-104 | a deep copy marked at the cell for the side to move, searched for the other side, yields exactly that child's `ChildScore` |
| MinimaxSearch.AI.Eval | main.py:125-127 | returns the move of `Search(board, false)`: the opponent always searches as the minimiser; the board is unchanged |
| MinimaxSearch.AI.RndChoice | main.py:81-84 | returns some cell of `get_empty_box`, which is an empty cell of the board |
| MinimaxSearch.ChildConsistent | main.py:101-103 | a child built from a listed empty cell of a consistent board is consistent |
| SearchExamples.ForcedWinForPlayerOne | main.py:96-109 | with one empty cell that completes player one's row, the maximiser plays it and scores +1 |
| SearchExamples.ForcedDraw | main.py:86-109 | with one empty cell that completes no line, the maximiser fills it and the full board scores 0 |
| SearchExamples.MinimiserTakesTheWin | main.py:111-124 | with two empty cells, the minimiser passes over the first cell (a draw) for the second, which completes player two's row and scores -1 |
| SearchExamples.OpeningConsistent | main.py:54-59 | the opening `[[1,1,0],[2,2,0],[0,0,0]]` with counter 4 arises from a new board by four marks on empty cells, so its counter agrees with its cells |
| SearchExamples.ForkIsLost | main.py:96-124 | after player two marks (0, 2) on that opening, each of player one's four replies lets player two complete a line, so the maximiser scores -1 |
| SearchExamples.MinimiserPrefersTheEarlierWin | main.py:111-124 | on that opening the minimiser answers (0, 2) with score -1: the immediate win at (1, 2) scores the same but comes later in row-major order, and strict `<` keeps the first |

## Left out

- Every pygame call is left out as rendering and I/O: screen setup (main.py:19-22), the `show=True` line drawing inside `final_state`, `Game.draw_lines`, `Game.draw_figure`, and the event loop with its mouse-to-cell mapping in `main`.
- The `Game` class (`make_move`, `next_turn`, `reset`, `is_over`) is left out as orchestration. `is_over` is the same test as `MinimaxSearch.IsTerminal`.
- `AI.RndChoice`: the uniform draw of `random.randrange` is modelled only as "some element of the list". When the list is empty `random.randrange` raises an error; the model has a precondition instead.
- `copy.deepcopy` is modelled by the `Board.Copy` constructor: a fresh array with the same cells and the same counter.
- The alias `empty_boxes = boxes` set in `__init__` is never read, so it is not modelled.
- Board.MarkBox, BoardModel.Mark, BoardModel.EmptyBox, BoardModel.At: every cell access requires 0 <= row, col < 3. Python would also accept negative indices (counted from the end) and raise on larger ones; the program's callers never pass either.
- Concrete values of large game trees are not proved: that the empty board scores 0, and that perfect play from it draws. The search tree from the empty board has over half a million nodes, and no general lemma of the model settles a board without a forced result, so a proof would have to take those positions one by one. Only boards with a forced result are checked, in `SearchExamples`.
- "At most one player holds a line on a reachable board" is not proved, because it needs a model of alternating turns, which lives in the omitted `Game` class. `FinalStateWins` instead says what is reported when exactly one player holds a line.
