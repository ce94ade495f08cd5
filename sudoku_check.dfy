/** The board-level logic of the sudoku page's answer check (`checkBoard`) and of
    the focus advance after an input (`moveFocus`) in web-project/scripts/sudoku.js.
    The input cells are seen as a 9x9 integer board (0 for an empty input) and the
    cells carrying the 'clue' class as a 9x9 boolean mask; the DOM marks and the
    alert become the method's results. */
module SudokuCheck {
  import opened SudokuBoard
  import opened Common

  /** The three messages `checkBoard` can show. */
  datatype Outcome = AllCorrect | HasErrors | NotFinished

  /** Cell (r1, c1) comes strictly before cell (r2, c2) in row-major order. */
  predicate Before(r1: int, c1: int, r2: int, c2: int) {
    r1 < r2 || (r1 == r2 && c1 < c2)
  }

  /** `checkBoard`: marks every filled cell that differs from the solution as
      incorrect; the outcome is AllCorrect when nothing is empty and nothing is
      marked, HasErrors as soon as one cell is marked (empty cells or not), and
      NotFinished otherwise. Neither board is changed. */
  method CheckBoard(board: array2<int>, solution: array2<int>) returns (marks: set<(int, int)>, outcome: Outcome)
    requires board.Length0 == 9 && board.Length1 == 9
    requires solution.Length0 == 9 && solution.Length1 == 9
    ensures forall r, c :: (r, c) in marks <==> InGrid(r, c) && board[r, c] != 0 && board[r, c] != solution[r, c]
    ensures outcome == AllCorrect <==> (forall r, c :: InGrid(r, c) ==> board[r, c] != 0) && marks == {}
    ensures outcome == HasErrors <==> marks != {}
    ensures outcome == NotFinished <==> (exists r, c :: InGrid(r, c) && board[r, c] == 0) && marks == {}
  {
    var all, wrong := true, false;
    marks := {};
    for r := 0 to 9
      invariant forall i, j :: (i, j) in marks <==> 0 <= i < r && 0 <= j < 9 && board[i, j] != 0 && board[i, j] != solution[i, j]
      invariant all <==> forall i, j :: 0 <= i < r && 0 <= j < 9 ==> board[i, j] != 0
      invariant wrong <==> marks != {}
    {
      for c := 0 to 9
        invariant forall i, j :: (i, j) in marks <==>
          ((0 <= i < r && 0 <= j < 9) || (i == r && 0 <= j < c)) && board[i, j] != 0 && board[i, j] != solution[i, j]
        invariant all <==> forall i, j :: ((0 <= i < r && 0 <= j < 9) || (i == r && 0 <= j < c)) ==> board[i, j] != 0
        invariant wrong <==> marks != {}
      {
        if board[r, c] == 0 {
          all := false;
        }
        if board[r, c] != 0 && board[r, c] != solution[r, c] {
          wrong := true;
          marks := marks + {(r, c)};
        }
      }
    }
    if all && !wrong {
      outcome := AllCorrect;
    } else if wrong {
      outcome := HasErrors;
    } else {
      outcome := NotFinished;
    }
  }

  /** Against a solution without empty cells, a board passes the check (no empty
      cell, no incorrect cell) exactly when it is that solution. */
  lemma PassesIffSolution(g: Board, s: Board)
    requires WellFormed(g) && WellFormed(s)
    requires forall r, c :: InGrid(r, c) ==> s[r][c] != 0
    ensures ((forall r, c :: InGrid(r, c) ==> g[r][c] != 0) &&
             (forall r, c :: InGrid(r, c) ==> !(g[r][c] != 0 && g[r][c] != s[r][c])))
            <==> g == s
  {
    if (forall r, c :: InGrid(r, c) ==> g[r][c] != 0) &&
       (forall r, c :: InGrid(r, c) ==> !(g[r][c] != 0 && g[r][c] != s[r][c])) {
      BoardExt(g, s);
    }
  }

  /** `moveFocus(r, c)`: the first cell after (r, c) in row-major order that is not
      a clue, searching the rest of row r and then the rows below; None when every
      later cell is a clue (focus then stays where it is). */
  method MoveFocus(clue: array2<bool>, r: int, c: int) returns (target: Option<(int, int)>)
    requires clue.Length0 == 9 && clue.Length1 == 9 && InGrid(r, c)
    ensures target.Some? ==>
      InGrid(target.value.0, target.value.1) && !clue[target.value.0, target.value.1] &&
      Before(r, c, target.value.0, target.value.1) &&
      forall i, j :: InGrid(i, j) && Before(r, c, i, j) && Before(i, j, target.value.0, target.value.1) ==> clue[i, j]
    ensures target.None? ==> forall i, j :: InGrid(i, j) && Before(r, c, i, j) ==> clue[i, j]
  {
    for cc := c + 1 to 9
      invariant forall j :: c < j < cc ==> clue[r, j]
    {
      if !clue[r, cc] {
        return Some((r, cc));
      }
    }
    for rr := r + 1 to 9
      invariant forall i, j :: InGrid(i, j) && Before(r, c, i, j) && i < rr ==> clue[i, j]
    {
      for cc := 0 to 9
        invariant forall i, j :: InGrid(i, j) && Before(r, c, i, j) && Before(i, j, rr, cc) ==> clue[i, j]
      {
        if !clue[rr, cc] {
          return Some((rr, cc));
        }
      }
    }
    return None;
  }
}
