/** `countSolutions(board, limit)` of web-project/scripts/sudoku.js: a depth-first
    search on a private copy of the board that fills the first empty cell (row-major)
    with every digit `isValid` accepts, undoes each placement, and stops as soon as
    `limit` complete boards have been reached.

    The search is specified by the ghost function Search, which returns the list of
    complete boards the search reaches, in order; the engine's counter is its length.
    The lemmas below say what that list is: completions of the input, pairwise
    distinct, at most `limit` of them, and all of them when fewer than `limit`. */
module SudokuSearch {
  import opened SudokuBoard

  // ---------------------------------------------------------------------------
  // Specification

  /** The row-major position of the first empty cell at or after p; 81 when none is. */
  ghost function FirstZeroFrom(g: Board, p: int): (q: int)
    requires WellFormed(g) && 0 <= p <= 81
    ensures p <= q <= 81
    ensures q < 81 ==> Cell(g, q) == 0
    ensures forall k :: p <= k < q ==> Cell(g, k) != 0
    decreases 81 - p
  {
    if p == 81 || Cell(g, p) == 0 then p else FirstZeroFrom(g, p + 1)
  }

  ghost function FirstZero(g: Board): int
    requires WellFormed(g)
  {
    FirstZeroFrom(g, 0)
  }

  /** s is a board the search can complete g to: it keeps every nonzero cell of g,
      puts a digit 1-9 in every empty cell of g, and no digit it put there repeats
      a digit of a cell sharing a unit. Cells that were already filled in g are not
      checked against each other, exactly as the search never checks them. */
  ghost predicate Completes(s: Board, g: Board)
    requires WellFormed(s) && WellFormed(g)
  {
    && (forall r, c :: InGrid(r, c) && g[r][c] != 0 ==> s[r][c] == g[r][c])
    && (forall r, c :: InGrid(r, c) && g[r][c] == 0 ==> 1 <= s[r][c] <= 9)
    && (forall r1, c1, r2, c2 ::
          InGrid(r1, c1) && InGrid(r2, c2) && (r1 != r2 || c1 != c2) && SameUnit(r1, c1, r2, c2) && g[r1][c1] == 0
          ==> s[r1][c1] != s[r2][c2])
  }

  /** `dfs()` on board g with the complete boards `found` reached so far: the list of
      complete boards reached when it returns. */
  ghost function Search(g: Board, found: seq<Board>, limit: int): (r: seq<Board>)
    requires WellFormed(g)
    ensures found <= r
    decreases Zeros(g), 1
  {
    if |found| >= limit then found
    else
      var p := FirstZero(g);
      if p == 81 then found + [g]
      else TryDigits(g, p / 9, p % 9, 1, found, limit)
  }

  /** The `for (n = ...; n <= 9; n++)` loop of `dfs` at empty cell (r, c), from digit n on. */
  ghost function TryDigits(g: Board, r: int, c: int, n: int, found: seq<Board>, limit: int): (res: seq<Board>)
    requires WellFormed(g) && InGrid(r, c) && g[r][c] == 0 && 1 <= n <= 10
    ensures found <= res
    decreases Zeros(g), 0, 10 - n
  {
    if n == 10 then found
    else if Legal(g, r, c, n) then
      PlaceZeros(g, r, c, n);
      var found' := Search(Place(g, r, c, n), found, limit);
      if |found'| >= limit then found' else TryDigits(g, r, c, n + 1, found', limit)
    else TryDigits(g, r, c, n + 1, found, limit)
  }

  /** `limit = limit || 2`: a falsy limit (0) becomes 2. */
  function EffectiveLimit(limit: int): (r: int)
    ensures r != 0 && (limit != 0 ==> r == limit)
  {
    if limit == 0 then 2 else limit
  }

  /** The complete boards `countSolutions(board, limit)` reaches; it returns their number. */
  ghost function Solutions(g: Board, limit: int): seq<Board>
    requires WellFormed(g)
  {
    Search(g, [], EffectiveLimit(limit))
  }

  // ---------------------------------------------------------------------------
  // What the search finds

  /** Placing n at an empty cell where `isValid` accepts it: every completion of the
      new board is a completion of the old one, with n at that cell. */
  lemma PlaceCompletes(g: Board, r: int, c: int, n: int, s: Board)
    requires WellFormed(g) && WellFormed(s) && InGrid(r, c) && g[r][c] == 0
    requires 1 <= n <= 9 && Legal(g, r, c, n)
    requires Completes(s, Place(g, r, c, n))
    ensures Completes(s, g) && s[r][c] == n
  {
    IsValidUnits(g, r, c, n);
    var g' := Place(g, r, c, n);
    forall r1, c1, r2, c2 |
      InGrid(r1, c1) && InGrid(r2, c2) && (r1 != r2 || c1 != c2) && SameUnit(r1, c1, r2, c2) && g[r1][c1] == 0
      ensures s[r1][c1] != s[r2][c2]
    {
      if r1 == r && c1 == c {
        if g[r2][c2] == 0 {
          assert g'[r2][c2] == 0 && SameUnit(r2, c2, r1, c1);
        } else {
          assert s[r2][c2] == g[r2][c2];
        }
      } else {
        assert g'[r1][c1] == 0;
      }
    }
  }

  /** Every completion s of g passes `isValid` at an empty cell of g and is a
      completion of g with its own digit placed there. */
  lemma CompletesPlace(g: Board, r: int, c: int, s: Board)
    requires WellFormed(g) && WellFormed(s) && InGrid(r, c) && g[r][c] == 0
    requires Completes(s, g)
    ensures 1 <= s[r][c] <= 9 && Legal(g, r, c, s[r][c])
    ensures Completes(s, Place(g, r, c, s[r][c]))
  {
    IsValidUnits(g, r, c, s[r][c]);
    forall i, j | InGrid(i, j) && SameUnit(r, c, i, j)
      ensures g[i][j] != s[r][c]
    {
      if i != r || j != c {
        if g[i][j] != 0 {
          assert s[i][j] == g[i][j];
        }
      }
    }
  }

  /** A board without empty cells completes only to itself, and does so whatever its
      digits are. */
  lemma FullBoardCompletes(g: Board)
    requires WellFormed(g)
    requires forall r, c :: InGrid(r, c) ==> g[r][c] != 0
    ensures Completes(g, g)
    ensures forall s :: WellFormed(s) && Completes(s, g) ==> s == g
  {
    forall s | WellFormed(s) && Completes(s, g)
      ensures s == g
    {
      BoardExt(s, g);
    }
  }

  /** `res` extends `found` by at most up to `limit` boards that satisfy P, no two
      equal, and, unless it reached `limit`, by every board that satisfies P. */
  ghost predicate Enumerates(found: seq<Board>, res: seq<Board>, limit: int, P: Board -> bool) {
    && |found| <= |res| <= limit && res[..|found|] == found
    && (forall i :: |found| <= i < |res| ==> P(res[i]))
    && (forall i, j :: |found| <= i < j < |res| ==> res[i] != res[j])
    && (|res| < limit ==> forall s :: P(s) ==> s in res[|found|..])
  }

  /** The completions of g. */
  ghost function CompletionOf(g: Board): Board -> bool
    requires WellFormed(g)
  {
    s => WellFormed(s) && Completes(s, g)
  }

  /** The completions of g with a digit from lo to hi at (r, c). */
  ghost function DigitsAt(g: Board, r: int, c: int, lo: int, hi: int): Board -> bool
    requires WellFormed(g) && InGrid(r, c)
  {
    s => WellFormed(s) && Completes(s, g) && lo <= s[r][c] <= hi
  }

  /** An enumeration of P is one of every Q that holds of the same boards. */
  lemma EnumeratesSame(found: seq<Board>, res: seq<Board>, limit: int, P: Board -> bool, Q: Board -> bool)
    requires Enumerates(found, res, limit, P)
    requires forall s :: P(s) <==> Q(s)
    ensures Enumerates(found, res, limit, Q)
  {
  }

  /** An enumeration of P that reached `limit` is one of every Q weaker than P. */
  lemma EnumeratesCut(found: seq<Board>, res: seq<Board>, limit: int, P: Board -> bool, Q: Board -> bool)
    requires Enumerates(found, res, limit, P) && |res| >= limit
    requires forall s :: P(s) ==> Q(s)
    ensures Enumerates(found, res, limit, Q)
  {
  }

  /** Two stretches of a search appended: `mid` enumerates A after `found`, all of
      it, and `res` enumerates B after `mid`. When no board satisfies both A and B,
      `res` enumerates A or B after `found`. */
  lemma Append(found: seq<Board>, mid: seq<Board>, res: seq<Board>, limit: int,
               A: Board -> bool, B: Board -> bool, C: Board -> bool)
    requires Enumerates(found, mid, limit, A) && |mid| < limit
    requires Enumerates(mid, res, limit, B)
    requires forall s :: !(A(s) && B(s))
    requires forall s :: C(s) <==> A(s) || B(s)
    ensures Enumerates(found, res, limit, C)
  {
    assert res[..|found|] == mid[..|found|];
    forall i | |found| <= i < |mid|
      ensures res[i] == mid[i]
    {
      assert res[..|mid|][i] == mid[i];
    }
    forall i, j | |found| <= i < j < |res|
      ensures res[i] != res[j]
    {
      if i < |mid| && |mid| <= j {
        assert A(res[i]) && B(res[j]);
      }
    }
    if |res| < limit {
      forall s | C(s)
        ensures s in res[|found|..]
      {
        if A(s) {
          var k :| |found| <= k < |mid| && mid[k] == s by {
            assert s in mid[|found|..];
          }
          assert res[|found|..][k - |found|] == s;
        } else {
          var k :| |mid| <= k < |res| && res[k] == s by {
            assert s in res[|mid|..];
          }
          assert res[|found|..][k - |found|] == s;
        }
      }
    }
  }

  /** The boards the search reaches after placing a digit n that `isValid` accepts at
      the empty cell (r, c): distinct completions of g with n at (r, c), all of them
      unless `limit` was reached. */
  lemma {:induction false} PlacedSearch(g: Board, r: int, c: int, n: int, found: seq<Board>, limit: int)
    requires WellFormed(g) && InGrid(r, c) && g[r][c] == 0 && 1 <= n <= 9 && Legal(g, r, c, n)
    requires |found| < limit
    ensures Enumerates(found, Search(Place(g, r, c, n), found, limit), limit, DigitsAt(g, r, c, n, n))
    decreases Zeros(g), 0, 10 - n, 0
  {
    var g' := Place(g, r, c, n);
    PlaceZeros(g, r, c, n);
    SearchCorrect(g', found, limit);
    forall s
      ensures CompletionOf(g')(s) <==> DigitsAt(g, r, c, n, n)(s)
    {
      if WellFormed(s) && Completes(s, g') {
        PlaceCompletes(g, r, c, n, s);
      }
      if WellFormed(s) && Completes(s, g) && s[r][c] == n {
        CompletesPlace(g, r, c, s);
      }
    }
    EnumeratesSame(found, Search(g', found, limit), limit, CompletionOf(g'), DigitsAt(g, r, c, n, n));
  }

  /** The main property of TryDigits: it enumerates, after `found`, the completions
      of g with a digit from n to 9 at (r, c). */
  lemma {:induction false} TryDigitsCorrect(g: Board, r: int, c: int, n: int, found: seq<Board>, limit: int)
    requires WellFormed(g) && InGrid(r, c) && g[r][c] == 0 && 1 <= n <= 10
    requires |found| < limit
    ensures Enumerates(found, TryDigits(g, r, c, n, found, limit), limit, DigitsAt(g, r, c, n, 9))
    decreases Zeros(g), 0, 10 - n, 1
  {
    if n == 10 {
    } else if Legal(g, r, c, n) {
      PlacedSearch(g, r, c, n, found, limit);
      var mid := Search(Place(g, r, c, n), found, limit);
      if |mid| >= limit {
        EnumeratesCut(found, mid, limit, DigitsAt(g, r, c, n, n), DigitsAt(g, r, c, n, 9));
      } else {
        TryDigitsCorrect(g, r, c, n + 1, mid, limit);
        assert TryDigits(g, r, c, n, found, limit) == TryDigits(g, r, c, n + 1, mid, limit);
        Append(found, mid, TryDigits(g, r, c, n + 1, mid, limit), limit,
               DigitsAt(g, r, c, n, n), DigitsAt(g, r, c, n + 1, 9), DigitsAt(g, r, c, n, 9));
      }
    } else {
      TryDigitsCorrect(g, r, c, n + 1, found, limit);
      IllegalDigitStep(g, r, c, n);
      EnumeratesSame(found, TryDigits(g, r, c, n, found, limit), limit, DigitsAt(g, r, c, n + 1, 9), DigitsAt(g, r, c, n, 9));
    }
  }

  /** A digit n that `isValid` rejects at an empty cell of g is in no completion there. */
  lemma IllegalDigitStep(g: Board, r: int, c: int, n: int)
    requires WellFormed(g) && InGrid(r, c) && g[r][c] == 0 && !Legal(g, r, c, n)
    ensures forall s :: WellFormed(s) && Completes(s, g) ==> s[r][c] != n
  {
    forall s | WellFormed(s) && Completes(s, g)
      ensures s[r][c] != n
    {
      CompletesPlace(g, r, c, s);
    }
  }

  /** The main property of Search (with `found` shorter than `limit`): it extends
      `found` by at most up to `limit` boards, all completions of g, no two equal,
      and, when it stops short of `limit`, by every completion of g. */
  lemma {:induction false} SearchCorrect(g: Board, found: seq<Board>, limit: int)
    requires WellFormed(g) && |found| < limit
    ensures Enumerates(found, Search(g, found, limit), limit, CompletionOf(g))
    decreases Zeros(g), 1, 0, 0
  {
    var p := FirstZero(g);
    if p == 81 {
      forall r, c | InGrid(r, c)
        ensures g[r][c] != 0
      {
        PositionOf(r, c);
        assert Cell(g, r * 9 + c) != 0;
      }
      FullBoardCompletes(g);
      var res := found + [g];
      assert res[..|found|] == found;
      assert res[|found|..] == [g];
    } else {
      var r, c := p / 9, p % 9;
      TryDigitsCorrect(g, r, c, 1, found, limit);
      EnumeratesSame(found, Search(g, found, limit), limit, DigitsAt(g, r, c, 1, 9), CompletionOf(g));
    }
  }

  // ---------------------------------------------------------------------------
  // What `countSolutions` returns

  /** The count lies in [0, limit] for the effective limit (a falsy limit being 2),
      and is 0 for a negative limit, where the search stops at once. */
  lemma SolutionsBound(g: Board, limit: int)
    requires WellFormed(g)
    ensures EffectiveLimit(limit) > 0 ==> |Solutions(g, limit)| <= EffectiveLimit(limit)
    ensures EffectiveLimit(limit) < 0 ==> Solutions(g, limit) == []
  {
    if EffectiveLimit(limit) > 0 {
      SearchCorrect(g, [], EffectiveLimit(limit));
    }
  }

  /** What is counted: the boards counted are distinct completions of the input that
      agree with all of its nonzero cells, and a count below the limit is the number
      of all its completions. */
  lemma SolutionsAreCompletions(g: Board, limit: int)
    requires WellFormed(g)
    ensures var res := Solutions(g, limit);
      && (forall i :: 0 <= i < |res| ==> WellFormed(res[i]) && Completes(res[i], g))
      && (forall i, j :: 0 <= i < j < |res| ==> res[i] != res[j])
      && (|res| < EffectiveLimit(limit) ==> forall s :: WellFormed(s) && Completes(s, g) ==> s in res)
  {
    if EffectiveLimit(limit) > 0 {
      SearchCorrect(g, [], EffectiveLimit(limit));
      assert Solutions(g, limit)[0..] == Solutions(g, limit);
    }
  }

  /** A board with no empty cell counts as exactly one solution, itself, for any
      positive or falsy limit, whether or not its digits are legal. */
  lemma FullBoardCountsOne(g: Board, limit: int)
    requires WellFormed(g)
    requires forall r, c :: InGrid(r, c) ==> g[r][c] != 0
    requires limit >= 0
    ensures Solutions(g, limit) == [g]
  {
    assert forall q :: 0 <= q < 81 ==> Cell(g, q) != 0;
  }

  /** `countSolutions(p, 2) === 1` means p has exactly one completion. */
  lemma CountOneIsUnique(g: Board)
    requires WellFormed(g)
    requires |Solutions(g, 2)| == 1
    ensures WellFormed(Solutions(g, 2)[0])
    ensures forall s :: WellFormed(s) ==> (Completes(s, g) <==> s == Solutions(g, 2)[0])
  {
    SolutionsAreCompletions(g, 2);
  }

  // ---------------------------------------------------------------------------
  // The search as the engine runs it: in place on a private copy

  /** The nested scan at the top of `dfs` for the first empty cell, row-major. */
  method FindEmpty(b: array2<int>) returns (found: bool, rr: int, cc: int)
    requires b.Length0 == 9 && b.Length1 == 9
    ensures found ==> InGrid(rr, cc) && b[rr, cc] == 0 && FirstZero(Grid(b)) == rr * 9 + cc
    ensures !found ==> FirstZero(Grid(b)) == 81
  {
    ghost var g := Grid(b);
    rr, cc, found := -1, -1, false;
    var i := 0;
    while i < 9
      invariant 0 <= i <= 9 && !found
      invariant forall k :: 0 <= k < i * 9 ==> Cell(g, k) != 0
    {
      var j := 0;
      while j < 9
        invariant 0 <= j <= 9 && !found
        invariant forall k :: 0 <= k < i * 9 + j ==> Cell(g, k) != 0
      {
        PositionOf(i, j);
        if b[i, j] == 0 {
          rr, cc, found := i, j, true;
          break;
        }
        j := j + 1;
      }
      if found {
        break;
      }
      i := i + 1;
    }
    if found {
      PositionOf(rr, cc);
      assert Cell(g, rr * 9 + cc) == 0;
      assert forall k :: 0 <= k < rr * 9 + cc ==> Cell(g, k) != 0;
    }
  }

  /** A digit `isValid` accepts is placed and searched on; the loop then stops if the
      limit was reached and goes on to the next digit otherwise. */
  lemma TakeDigit(g: Board, r: int, c: int, n: int, found: seq<Board>, limit: int)
    requires WellFormed(g) && InGrid(r, c) && g[r][c] == 0 && 1 <= n <= 9 && Legal(g, r, c, n)
    ensures var f' := Search(Place(g, r, c, n), found, limit);
      && (|f'| >= limit ==> TryDigits(g, r, c, n, found, limit) == f')
      && (|f'| < limit ==> TryDigits(g, r, c, n, found, limit) == TryDigits(g, r, c, n + 1, f', limit))
  {
  }

  /** A digit `isValid` rejects is skipped. */
  lemma SkipDigit(g: Board, r: int, c: int, n: int, found: seq<Board>, limit: int)
    requires WellFormed(g) && InGrid(r, c) && g[r][c] == 0 && 1 <= n <= 9 && !Legal(g, r, c, n)
    ensures TryDigits(g, r, c, n, found, limit) == TryDigits(g, r, c, n + 1, found, limit)
  {
  }

  /** `dfs()` on the board g held in b: the counter and the list of reached boards
      are threaded through as in/out values; the board is written only at the empty
      cell found and is back as it was on return. */
  method Dfs(b: array2<int>, ghost g: Board, count: nat, limit: int, ghost found: seq<Board>)
    returns (count': nat, ghost found': seq<Board>)
    requires b.Length0 == 9 && b.Length1 == 9 && Grid(b) == g && count == |found|
    modifies b
    ensures Grid(b) == g
    ensures found' == Search(g, found, limit) && count' == |found'|
    decreases Zeros(g), 2
  {
    if count >= limit {
      return count, found;
    }
    var hasEmpty, rr, cc := FindEmpty(b);
    if !hasEmpty {
      return count + 1, found + [g];
    }
    PositionOf(rr, cc);
    count', found' := DigitLoop(b, g, rr, cc, count, limit, found);
  }

  /** The `for (n = 1; n <= 9; n++)` loop of `dfs` at the empty cell (rr, cc). */
  method DigitLoop(b: array2<int>, ghost g: Board, rr: int, cc: int, count: nat, limit: int, ghost found: seq<Board>)
    returns (count': nat, ghost found': seq<Board>)
    requires b.Length0 == 9 && b.Length1 == 9 && Grid(b) == g
    requires InGrid(rr, cc) && g[rr][cc] == 0 && count == |found| && count < limit
    modifies b
    ensures Grid(b) == g
    ensures found' == TryDigits(g, rr, cc, 1, found, limit) && count' == |found'|
    decreases Zeros(g), 1
  {
    count', found' := count, found;
    var n := 1;
    while n <= 9
      invariant 1 <= n <= 10
      invariant Grid(b) == g
      invariant count' == |found'| && count' < limit
      invariant TryDigits(g, rr, cc, n, found', limit) == TryDigits(g, rr, cc, 1, found, limit)
    {
      var ok := IsValid(b, rr, cc, n);
      if ok {
        count', found' := PlaceAndSearch(b, g, rr, cc, n, count', limit, found');
        if count' >= limit {
          return;
        }
      } else {
        SkipDigit(g, rr, cc, n, found', limit);
      }
      n := n + 1;
    }
  }

  /** The body of the digit loop of `dfs` once `isValid` has accepted n at the empty
      cell (r, c): write n, search on, and write 0 back. The loop then stops if the
      limit was reached and goes on to n + 1 otherwise, as TryDigits does. */
  method PlaceAndSearch(b: array2<int>, ghost g: Board, r: int, c: int, n: int, count: nat, limit: int, ghost found: seq<Board>)
    returns (count': nat, ghost found': seq<Board>)
    requires b.Length0 == 9 && b.Length1 == 9 && Grid(b) == g
    requires InGrid(r, c) && g[r][c] == 0 && 1 <= n <= 9 && Legal(g, r, c, n) && count == |found|
    modifies b
    ensures Grid(b) == g && count' == |found'|
    ensures count' >= limit ==> found' == TryDigits(g, r, c, n, found, limit)
    ensures count' < limit ==> TryDigits(g, r, c, n + 1, found', limit) == TryDigits(g, r, c, n, found, limit)
    decreases Zeros(g), 0
  {
    ghost var g' := Place(g, r, c, n);
    b[r, c] := n;
    BoardExt(Grid(b), g');
    PlaceZeros(g, r, c, n);
    count', found' := Dfs(b, g', count, limit, found);
    b[r, c] := 0;
    BoardExt(Grid(b), g);
    TakeDigit(g, r, c, n, found, limit);
  }

  /** `countSolutions(board, limit)`: searches a fresh copy, so the caller's board is
      not modified (the method has no modifies clause), and returns the number of
      boards Solutions lists. */
  method CountSolutions(board: array2<int>, limit: int) returns (count: nat)
    requires board.Length0 == 9 && board.Length1 == 9
    ensures count == |Solutions(Grid(board), limit)|
    ensures EffectiveLimit(limit) > 0 ==> count <= EffectiveLimit(limit)
    ensures EffectiveLimit(limit) < 0 ==> count == 0
  {
    var lim := EffectiveLimit(limit);
    var b := CopyBoard(board);
    ghost var found;
    count, found := Dfs(b, Grid(b), 0, lim, []);
    SolutionsBound(Grid(board), limit);
  }
}
