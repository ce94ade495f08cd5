/** The puzzle factory of web-project/scripts/sudoku.js: `generateSolution` fills an
    empty board by randomized backtracking, `makePuzzleFromSolution` blanks cells of
    a solution one at a time, keeping a blank only while the puzzle still has exactly
    one completion, and `generatePuzzle` retries the two until the puzzle has a
    blank cell. */
module SudokuGenerate {
  import opened SudokuBoard
  import opened SudokuRandom
  import opened SudokuSearch

  /** lo, lo + 1, ..., lo + n - 1. */
  function Range(lo: int, n: nat): (r: seq<int>)
    ensures |r| == n
  {
    if n == 0 then [] else Range(lo, n - 1) + [lo + n - 1]
  }

  /** Position k of the range holds lo + k. */
  lemma {:induction false} RangeAt(lo: int, n: nat)
    ensures forall k :: 0 <= k < n ==> Range(lo, n)[k] == lo + k
  {
    if n > 0 {
      RangeAt(lo, n - 1);
    }
  }

  /** Each value of the range occurs in it exactly once. */
  lemma {:induction false} RangeMultiset(lo: int, n: nat, x: int)
    ensures multiset(Range(lo, n))[x] == if lo <= x < lo + n then 1 else 0
  {
    if n > 0 {
      RangeMultiset(lo, n - 1, x);
    }
  }

  /** A value found at two indices occurs at least twice. */
  lemma TwoOccurrences<T>(a: seq<T>, i: int, j: int)
    requires 0 <= i < j < |a| && a[i] == a[j]
    ensures multiset(a)[a[i]] >= 2
  {
    assert a == a[..j] + a[j..];
    assert a[i] in a[..j] && a[j] in a[j..];
  }

  /** A permutation of a range holds each value of the range exactly once. */
  lemma PermutationOfRange(a: seq<int>, lo: int, n: nat)
    requires multiset(a) == multiset(Range(lo, n))
    ensures forall i, j :: 0 <= i < j < |a| ==> a[i] != a[j]
    ensures forall k :: lo <= k < lo + n ==> k in a
    ensures forall i :: 0 <= i < |a| ==> lo <= a[i] < lo + n
  {
    forall i, j | 0 <= i < j < |a|
      ensures a[i] != a[j]
    {
      if a[i] == a[j] {
        TwoOccurrences(a, i, j);
        RangeMultiset(lo, n, a[i]);
        assert false;
      }
    }
    forall k | lo <= k < lo + n
      ensures k in a
    {
      RangeMultiset(lo, n, k);
      assert k in multiset(a);
    }
    forall i | 0 <= i < |a|
      ensures lo <= a[i] < lo + n
    {
      assert a[i] in multiset(a);
      RangeMultiset(lo, n, a[i]);
    }
  }

  /** A fresh array holding lo, lo + 1, ..., lo + n - 1, shuffled by `rngShuffle`:
      `nums.slice()` of the digits 1-9 in `fill`, the positions 0-80 pushed in
      `makePuzzleFromSolution`. It is a permutation of that range, so it holds each
      value of the range exactly once; the shuffle uses n - 1 draws. */
  method ShuffledRange(lo: int, n: nat, rng: Rng) returns (a: array<int>)
    modifies rng
    ensures fresh(a) && a.Length == n
    ensures multiset(a[..]) == multiset(Range(lo, n))
    ensures forall k :: 0 <= k < n ==> lo <= a[k] < lo + n
    ensures forall i, j :: 0 <= i < j < n ==> a[i] != a[j]
    ensures forall k :: lo <= k < lo + n ==> k in a[..]
    ensures n > 0 ==> rng.drawn == old(rng.drawn) + n - 1
  {
    a := new int[n](i => lo + i);
    RangeAt(lo, n);
    assert a[..] == Range(lo, n);
    Shuffle(a, rng);
    PermutationOfRange(a[..], lo, n);
  }

  // ---------------------------------------------------------------------------
  // generateSolution

  /** The board `fill(pos)` starts from: positions before pos hold digits and the
      positions from pos on are empty. */
  ghost predicate FilledBefore(g: Board, pos: int)
    requires WellFormed(g) && 0 <= pos <= 81
  {
    && (forall k :: 0 <= k < pos ==> 1 <= Cell(g, k) <= 9)
    && (forall k :: pos <= k < 81 ==> Cell(g, k) == 0)
  }

  /** Writing a digit at position pos of such a board gives one filled up to pos + 1,
      with the earlier positions untouched. */
  lemma FillStep(g: Board, pos: int, n: int)
    requires WellFormed(g) && 0 <= pos < 81 && FilledBefore(g, pos) && 1 <= n <= 9
    ensures FilledBefore(Place(g, pos / 9, pos % 9, n), pos + 1)
    ensures forall k :: 0 <= k < pos ==> Cell(Place(g, pos / 9, pos % 9, n), k) == Cell(g, k)
  {
    var r, c := pos / 9, pos % 9;
    assert pos == r * 9 + c;
    forall k | 0 <= k < 81
      ensures Cell(Place(g, r, c, n), k) == if k == pos then n else Cell(g, k)
    {
      PlaceCell(g, r, c, n, k);
    }
  }

  /** A consistent board with a digit in every position is solved. */
  lemma FilledIsSolved(g: Board)
    requires WellFormed(g) && FilledBefore(g, 81) && NoConflicts(g)
    ensures Solved(g)
  {
    forall r, c | InGrid(r, c)
      ensures 1 <= g[r][c] <= 9
    {
      PositionOf(r, c);
      assert Cell(g, r * 9 + c) == g[r][c];
    }
  }

  /** `fill(pos)`: tries the digits 1-9 in shuffled order at position pos, keeping
      the first that `isValid` accepts and for which the rest of the board fills.
      On success the board is solved and the positions before pos are as they were;
      on failure the board is exactly as it was. */
  method Fill(b: array2<int>, pos: int, rng: Rng) returns (ok: bool)
    requires b.Length0 == 9 && b.Length1 == 9 && 0 <= pos <= 81
    requires FilledBefore(Grid(b), pos) && NoConflicts(Grid(b))
    modifies b, rng
    ensures ok ==> Solved(Grid(b))
    ensures ok ==> forall k :: 0 <= k < pos ==> Cell(Grid(b), k) == Cell(old(Grid(b)), k)
    ensures !ok ==> Grid(b) == old(Grid(b))
    ensures rng.drawn >= old(rng.drawn)
    decreases 81 - pos
  {
    ghost var g := Grid(b);
    if pos == 81 {
      FilledIsSolved(g);
      return true;
    }
    var r, c := pos / 9, pos % 9;
    var order := ShuffledRange(1, 9, rng);
    for i := 0 to 9
      invariant Grid(b) == g
      invariant forall k :: 0 <= k < 9 ==> 1 <= order[k] <= 9
      invariant rng.drawn >= old(rng.drawn)
    {
      var n := order[i];
      var legal := IsValid(b, r, c, n);
      if legal {
        b[r, c] := n;
        BoardExt(Grid(b), Place(g, r, c, n));
        FillStep(g, pos, n);
        PlaceKeepsNoConflicts(g, r, c, n);
        ok := Fill(b, pos + 1, rng);
        if ok {
          return;
        }
        b[r, c] := 0;
        assert Cell(g, pos) == 0;
        BoardExt(Grid(b), g);
      }
    }
    return false;
  }

  /** `generateSolution()`: fills a fresh empty board from position 0. The result is
      a solved board, or, should the search fail, still the empty board. */
  method GenerateSolution(rng: Rng) returns (b: array2<int>)
    modifies rng
    ensures fresh(b) && b.Length0 == 9 && b.Length1 == 9
    ensures Solved(Grid(b)) || Grid(b) == EmptyGrid()
    ensures rng.drawn >= old(rng.drawn)
  {
    b := EmptyBoard();
    ghost var g := Grid(b);
    assert FilledBefore(g, 0);
    var ok := Fill(b, 0, rng);
  }

  // ---------------------------------------------------------------------------
  // makePuzzleFromSolution

  /** A solved board completes every puzzle carved out of it. */
  lemma SolvedCompletesCarved(p: Board, s: Board)
    requires WellFormed(p) && WellFormed(s) && Solved(s) && CarvedFrom(p, s)
    ensures Completes(s, p)
  {
  }

  /** A puzzle carved out of a solved board that `countSolutions(p, 2)` reports as
      uniquely solvable has that board as its one solution. */
  lemma CarvedUnique(p: Board, s: Board)
    requires WellFormed(p) && WellFormed(s) && Solved(s) && CarvedFrom(p, s)
    requires |Solutions(p, 2)| == 1
    ensures Solutions(p, 2) == [s]
  {
    SolvedCompletesCarved(p, s);
    CountOneIsUnique(p);
  }

  /** Blanking one more cell of a puzzle carved out of s leaves it carved out of s,
      with at most one more empty cell. */
  lemma CarveStep(g: Board, s: Board, r: int, c: int)
    requires WellFormed(g) && WellFormed(s) && InGrid(r, c) && CarvedFrom(g, s)
    ensures CarvedFrom(Place(g, r, c, 0), s)
    ensures Zeros(Place(g, r, c, 0)) <= Zeros(g) + 1
  {
    PlaceZeros(g, r, c, 0);
  }

  /** One visit of the carving loop: blank (r, c), ask `countSolutions(p, 2)`, and
      keep the blank only if the answer is 1; otherwise write the backed-up value
      back. */
  method BlankIfUnique(p: array2<int>, r: int, c: int) returns (kept: bool)
    requires p.Length0 == 9 && p.Length1 == 9 && InGrid(r, c)
    modifies p
    ensures kept ==> Grid(p) == Place(old(Grid(p)), r, c, 0) && |Solutions(Grid(p), 2)| == 1
    ensures !kept ==> Grid(p) == old(Grid(p))
    ensures kept <==> |Solutions(Place(old(Grid(p)), r, c, 0), 2)| == 1
  {
    ghost var before := Grid(p);
    var backup := p[r, c];
    p[r, c] := 0;
    BoardExt(Grid(p), Place(before, r, c, 0));
    var sols := CountSolutions(p, 2);
    if sols != 1 {
      p[r, c] := backup;
      BoardExt(Grid(p), before);
      return false;
    }
    return true;
  }

  /** `makePuzzleFromSolution(sol, removals)`: visits the 81 positions in shuffled
      order; at each, unless `removals` blanks have been kept already, tries to blank
      it with BlankIfUnique. `sol` itself is not modified (only the random source
      is, by the 80 draws of one shuffle). For a solved `sol`, a puzzle with fewer
      blanks than the target is as blank as the carver can make it: blanking any
      remaining clue would leave more than one completion. */
  method MakePuzzleFromSolution(sol: array2<int>, removals: int, rng: Rng) returns (p: array2<int>)
    requires sol.Length0 == 9 && sol.Length1 == 9
    modifies rng
    ensures fresh(p) && p.Length0 == 9 && p.Length1 == 9
    ensures CarvedFrom(Grid(p), Grid(sol))
    ensures Zeros(Grid(p)) <= Zeros(Grid(sol)) + (if removals > 0 then removals else 0)
    ensures removals <= 0 ==> Grid(p) == Grid(sol)
    ensures (forall r, c :: InGrid(r, c) ==> sol[r, c] != 0) ==> |Solutions(Grid(p), 2)| == 1
    ensures Solved(Grid(sol)) && Zeros(Grid(p)) < removals ==>
      forall r, c :: InGrid(r, c) && Grid(p)[r][c] != 0 ==> |Solutions(Place(Grid(p), r, c, 0), 2)| == 2
    ensures rng.drawn == old(rng.drawn) + 80
  {
    ghost var s := Grid(sol);
    p := CopyBoard(sol);
    var positions := ShuffledRange(0, 81, rng);
    var removed, visited := CarveLoop(p, s, positions, removals);
    CarvingResult(Grid(p), s, removed, removals, visited);
  }

  /** The loop of `makePuzzleFromSolution` over the shuffled positions: stops once
      `removals` blanks are kept, and otherwise tries each position once. `visited`
      holds the positions tried, which are all 81 when the target is not met. */
  method CarveLoop(p: array2<int>, ghost s: Board, positions: array<int>, removals: int)
    returns (removed: int, ghost visited: set<int>)
    requires p.Length0 == 9 && p.Length1 == 9 && Grid(p) == s
    requires positions.Length == 81 && forall k :: 0 <= k < 81 ==> 0 <= positions[k] < 81
    requires forall i, j :: 0 <= i < j < 81 ==> positions[i] != positions[j]
    requires forall k :: 0 <= k < 81 ==> k in positions[..]
    modifies p
    ensures CarveState(Grid(p), s, removed, if removals > 0 then removals else 0, visited)
    ensures removed < removals ==> forall k :: 0 <= k < 81 ==> k in visited
  {
    ghost var cap := if removals > 0 then removals else 0;
    removed := 0;
    visited := {};
    ExhaustingStart(s);
    var idx := 0;
    while idx < 81 && removed < removals
      invariant idx <= 81 && CarveState(Grid(p), s, removed, cap, visited)
      invariant forall j :: 0 <= j < idx ==> positions[j] in visited
      invariant forall j :: idx <= j < 81 ==> positions[j] !in visited
    {
      var pos := positions[idx];
      removed := CarveAt(p, s, pos, removed, cap, visited);
      visited := visited + {pos};
      idx := idx + 1;
    }
    if removed < removals {
      AllVisited(positions[..], visited);
    }
  }

  /** Once every entry of a list of all 81 positions is visited, every position is. */
  lemma AllVisited(order: seq<int>, visited: set<int>)
    requires forall k :: 0 <= k < 81 ==> k in order
    requires forall j :: 0 <= j < |order| ==> order[j] in visited
    ensures forall k :: 0 <= k < 81 ==> k in visited
  {
    forall k | 0 <= k < 81
      ensures k in visited
    {
      assert k in order;
      var j :| 0 <= j < |order| && order[j] == k;
    }
  }

  /** The carving loop's invariant: Carving and Exhausting over the positions tried. */
  ghost predicate CarveState(g: Board, s: Board, removed: int, cap: int, visited: set<int>) {
    Carving(g, s, removed, cap) && Exhausting(g, s, removed, visited)
  }

  /** One visit of the carving loop: blank position `pos` when the puzzle keeps
      exactly one completion, counting a kept blank. */
  method CarveAt(p: array2<int>, ghost s: Board, pos: int, removed: int, ghost cap: int, ghost visited: set<int>)
    returns (removed': int)
    requires p.Length0 == 9 && p.Length1 == 9 && 0 <= pos < 81 && pos !in visited
    requires CarveState(Grid(p), s, removed, cap, visited) && removed < cap
    modifies p
    ensures CarveState(Grid(p), s, removed', cap, visited + {pos})
  {
    ghost var before := Grid(p);
    var kept := BlankIfUnique(p, pos / 9, pos % 9);
    CarveStateStep(before, Grid(p), s, removed, cap, visited, pos, kept);
    removed' := if kept then removed + 1 else removed;
  }

  /** One visit of the carving loop keeps CarveState. */
  lemma CarveStateStep(g: Board, g': Board, s: Board, removed: int, cap: int, visited: set<int>, pos: int, kept: bool)
    requires CarveState(g, s, removed, cap, visited) && removed < cap && 0 <= pos < 81 && pos !in visited && WellFormed(g')
    requires kept ==> g' == Place(g, pos / 9, pos % 9, 0) && |Solutions(g', 2)| == 1
    requires !kept ==> g' == g && |Solutions(Place(g, pos / 9, pos % 9, 0), 2)| != 1
    ensures CarveState(g', s, if kept then removed + 1 else removed, cap, visited + {pos})
  {
    CarvingStep(g, g', s, removed, cap, pos / 9, pos % 9, kept);
    ExhaustingStep(g, g', s, removed, visited, pos, kept);
  }

  /** What the carver keeps track of for a solved s: each kept blank added one
      empty cell; positions not yet tried still hold s's digit; and every tried
      position that still holds a digit would, if blanked, leave the puzzle with
      more than one completion. */
  ghost predicate Exhausting(g: Board, s: Board, removed: int, visited: set<int>)
    requires WellFormed(g) && WellFormed(s)
  {
    Solved(s) ==>
      && Zeros(g) == removed
      && (forall k :: 0 <= k < 81 && k !in visited ==> Cell(g, k) == Cell(s, k))
      && (forall k :: 0 <= k < 81 && k in visited && Cell(g, k) != 0 ==> |Solutions(Place(g, k / 9, k % 9, 0), 2)| == 2)
  }

  lemma ExhaustingStart(s: Board)
    requires WellFormed(s)
    ensures Exhausting(s, s, 0, {})
  {
    if Solved(s) {
      NoZeros(s);
    }
  }

  /** Blanking a further cell of a board that completes more than once keeps more
      than one completion: completions of the board with more clues complete the
      one with fewer, as long as the clues come from a solved board. */
  lemma FewerCluesCompletes(x: Board, h: Board, h': Board, s: Board)
    requires WellFormed(x) && WellFormed(h) && WellFormed(h') && WellFormed(s)
    requires Solved(s) && CarvedFrom(h, s) && CarvedFrom(h', h) && Completes(x, h)
    ensures Completes(x, h')
  {
    forall r1, c1, r2, c2 |
      InGrid(r1, c1) && InGrid(r2, c2) && (r1 != r2 || c1 != c2) && SameUnit(r1, c1, r2, c2) && h'[r1][c1] == 0
      ensures x[r1][c1] != x[r2][c2]
    {
      if h[r1][c1] != 0 {
        if h[r2][c2] == 0 {
          assert SameUnit(r2, c2, r1, c1);
        } else {
          assert s[r1][c1] != s[r2][c2];
        }
      }
    }
  }

  /** A puzzle carved from a solved board that counts 2 still counts 2 with fewer
      clues. */
  lemma TwoStaysTwo(h: Board, h': Board, s: Board)
    requires WellFormed(h) && WellFormed(h') && WellFormed(s)
    requires Solved(s) && CarvedFrom(h, s) && CarvedFrom(h', h) && |Solutions(h, 2)| == 2
    ensures |Solutions(h', 2)| == 2
  {
    SolutionsAreCompletions(h, 2);
    var x1, x2 := Solutions(h, 2)[0], Solutions(h, 2)[1];
    FewerCluesCompletes(x1, h, h', s);
    FewerCluesCompletes(x2, h, h', s);
    TwoCompletionsCountTwo(h', x1, x2);
  }

  /** Two different completions make the count at limit 2 reach 2. */
  lemma TwoCompletionsCountTwo(g: Board, x1: Board, x2: Board)
    requires WellFormed(g) && WellFormed(x1) && WellFormed(x2) && x1 != x2
    requires Completes(x1, g) && Completes(x2, g)
    ensures |Solutions(g, 2)| == 2
  {
    SolutionsAreCompletions(g, 2);
    SolutionsBound(g, 2);
  }

  /** Blanking one cell of a puzzle carved from a solved board leaves at least one
      completion, so a count other than 1 at limit 2 is 2. */
  lemma NotOneIsTwo(g: Board, s: Board, r: int, c: int)
    requires WellFormed(g) && WellFormed(s) && Solved(s) && CarvedFrom(g, s) && InGrid(r, c)
    requires |Solutions(Place(g, r, c, 0), 2)| != 1
    ensures |Solutions(Place(g, r, c, 0), 2)| == 2
  {
    var h := Place(g, r, c, 0);
    CarveStep(g, s, r, c);
    SolvedCompletesCarved(h, s);
    SolutionsAreCompletions(h, 2);
    SolutionsBound(h, 2);
  }

  /** Blanking a cell of a board with another cell blanked is carved from blanking
      only the first. */
  lemma BlankBoth(g: Board, r1: int, c1: int, r2: int, c2: int)
    requires WellFormed(g) && InGrid(r1, c1) && InGrid(r2, c2)
    ensures CarvedFrom(Place(Place(g, r1, c1, 0), r2, c2, 0), Place(g, r2, c2, 0))
  {
  }

  /** Blanking one more cell keeps every tried position that still holds a digit
      at two completions. */
  lemma KeptStaysTwo(g: Board, g': Board, s: Board, visited: set<int>, pos: int)
    requires WellFormed(g) && WellFormed(s) && Solved(s) && CarvedFrom(g, s)
    requires 0 <= pos < 81 && g' == Place(g, pos / 9, pos % 9, 0) && CarvedFrom(g', s)
    requires forall k :: 0 <= k < 81 ==> Cell(g', k) == if k == pos then 0 else Cell(g, k)
    requires forall k :: 0 <= k < 81 && k in visited && Cell(g, k) != 0 ==> |Solutions(Place(g, k / 9, k % 9, 0), 2)| == 2
    ensures forall k :: 0 <= k < 81 && k in visited + {pos} && Cell(g', k) != 0 ==> |Solutions(Place(g', k / 9, k % 9, 0), 2)| == 2
  {
    forall k | 0 <= k < 81 && k in visited + {pos} && Cell(g', k) != 0
      ensures |Solutions(Place(g', k / 9, k % 9, 0), 2)| == 2
    {
      assert k != pos && k in visited && Cell(g, k) != 0;
      var h := Place(g, k / 9, k % 9, 0);
      var h' := Place(g', k / 9, k % 9, 0);
      CarveStep(g, s, k / 9, k % 9);
      BlankBoth(g, pos / 9, pos % 9, k / 9, k % 9);
      TwoStaysTwo(h, h', s);
    }
  }

  /** One visit of the carving loop keeps Exhausting, with pos now tried. */
  lemma ExhaustingStep(g: Board, g': Board, s: Board, removed: int, visited: set<int>, pos: int, kept: bool)
    requires WellFormed(g) && WellFormed(g') && WellFormed(s) && CarvedFrom(g, s)
    requires 0 <= pos < 81 && pos !in visited && Exhausting(g, s, removed, visited)
    requires kept ==> g' == Place(g, pos / 9, pos % 9, 0)
    requires !kept ==> g' == g && |Solutions(Place(g, pos / 9, pos % 9, 0), 2)| != 1
    ensures Exhausting(g', s, if kept then removed + 1 else removed, visited + {pos})
  {
    if Solved(s) {
      var r, c := pos / 9, pos % 9;
      assert pos == r * 9 + c;
      assert Cell(g, pos) == Cell(s, pos) && 1 <= s[r][c] <= 9;
      if kept {
        PlaceZeros(g, r, c, 0);
        forall k | 0 <= k < 81
          ensures Cell(g', k) == if k == pos then 0 else Cell(g, k)
        {
          PlaceCell(g, r, c, 0, k);
        }
        CarveStep(g, s, r, c);
        KeptStaysTwo(g, g', s, visited, pos);
      } else {
        NotOneIsTwo(g, s, r, c);
      }
    }
  }

  /** When every position was tried, no remaining clue can be blanked with a
      unique completion. */
  lemma CarvingMaximal(g: Board, s: Board, removed: int, visited: set<int>)
    requires WellFormed(g) && WellFormed(s) && Solved(s) && Exhausting(g, s, removed, visited)
    requires forall k :: 0 <= k < 81 ==> k in visited
    ensures forall r, c :: InGrid(r, c) && g[r][c] != 0 ==> |Solutions(Place(g, r, c, 0), 2)| == 2
  {
    forall r, c | InGrid(r, c) && g[r][c] != 0
      ensures |Solutions(Place(g, r, c, 0), 2)| == 2
    {
      PositionOf(r, c);
      assert Cell(g, r * 9 + c) == g[r][c];
    }
  }

  /** What the carving loop's invariant gives `makePuzzleFromSolution`'s caller. */
  lemma CarvingResult(g: Board, s: Board, removed: int, removals: int, visited: set<int>)
    requires CarveState(g, s, removed, if removals > 0 then removals else 0, visited)
    requires removed < removals ==> forall k :: 0 <= k < 81 ==> k in visited
    ensures CarvedFrom(g, s)
    ensures Zeros(g) <= Zeros(s) + (if removals > 0 then removals else 0)
    ensures removals <= 0 ==> g == s
    ensures (forall r, c :: InGrid(r, c) ==> s[r][c] != 0) ==> |Solutions(g, 2)| == 1
    ensures Solved(s) && Zeros(g) < removals ==>
      forall r, c :: InGrid(r, c) && g[r][c] != 0 ==> |Solutions(Place(g, r, c, 0), 2)| == 2
  {
    if (forall r, c :: InGrid(r, c) ==> s[r][c] != 0) && removed == 0 {
      FullBoardCountsOne(s, 2);
    }
    if Solved(s) && Zeros(g) < removals {
      CarvingMaximal(g, s, removed, visited);
    }
  }

  /** What the carving loop keeps: the puzzle is carved out of s with at most
      `removed` new blanks, `removed` stays within the target, no blank means the
      puzzle is still s, and after a kept blank the puzzle has exactly one solution. */
  ghost predicate Carving(g: Board, s: Board, removed: int, cap: int)
  {
    WellFormed(g) && WellFormed(s) && CarvedFrom(g, s) &&
    0 <= removed <= cap && Zeros(g) <= Zeros(s) + removed &&
    (removed == 0 ==> g == s) &&
    (removed > 0 ==> |Solutions(g, 2)| == 1)
  }

  /** One visit of the carving loop keeps Carving, counting a kept blank. */
  lemma CarvingStep(g: Board, g': Board, s: Board, removed: int, cap: int, r: int, c: int, kept: bool)
    requires Carving(g, s, removed, cap) && removed < cap && InGrid(r, c) && WellFormed(g')
    requires kept ==> g' == Place(g, r, c, 0) && |Solutions(g', 2)| == 1
    requires !kept ==> g' == g
    ensures Carving(g', s, if kept then removed + 1 else removed, cap)
  {
    if kept {
      CarveStep(g, s, r, c);
    }
  }

  // ---------------------------------------------------------------------------
  // difficultyToRemovals and generatePuzzle

  /** `difficultyToRemovals(level)`: how many cells to blank; any level other than
      "easy" and "medium" gets the hard value. */
  function DifficultyToRemovals(level: string): (n: int)
    ensures n == 40 <==> level == "easy"
    ensures n == 50 <==> level == "medium"
    ensures n == 40 || n == 50 || n == 56
  {
    if level == "easy" then 40
    else if level == "medium" then 50
    else 56
  }

  /** The blanking target never exceeds 56, so at least 25 clues are always kept, and
      the targets grow from easy to medium to any other level. */
  lemma RemovalsOrdered(level: string)
    ensures DifficultyToRemovals("easy") < DifficultyToRemovals("medium") < DifficultyToRemovals(level) || level == "easy" || level == "medium"
    ensures 81 - DifficultyToRemovals(level) >= 25
  {
  }

  /** The blank-counting loop of `generatePuzzle`. */
  method CountBlanks(p: array2<int>) returns (blanks: nat)
    requires p.Length0 == 9 && p.Length1 == 9
    ensures blanks == Zeros(Grid(p))
  {
    ghost var g := Grid(p);
    blanks := 0;
    for r := 0 to 9
      invariant blanks + ZerosFrom(g, r) == Zeros(g)
    {
      for c := 0 to 9
        invariant blanks + RowZeros(g[r], c) + ZerosFrom(g, r + 1) == Zeros(g)
      {
        if p[r, c] == 0 {
          blanks := blanks + 1;
        }
      }
    }
  }

  /** What a pair returned by `generatePuzzle` satisfies: the puzzle was carved from
      the solution, the solution is solved or (when filling failed) empty, and a
      solved solution is the puzzle's only completion, with no more blanks than
      the level removes. */
  ghost predicate Generated(p: Board, s: Board, level: string) {
    WellFormed(p) && WellFormed(s) && CarvedFrom(p, s) &&
    (Solved(s) || s == EmptyGrid()) &&
    (Solved(s) ==> Solutions(p, 2) == [s] && Zeros(p) <= DifficultyToRemovals(level))
  }

  /** The blank counts `generatePuzzle` checks when pass `n` is the one it keeps:
      the `n` passes before it found no blank, and pass `n` itself is checked unless
      it is the fallback after six. */
  ghost function AttemptLog(n: nat, blanks: nat): (t: seq<nat>)
    requires n <= 6 && (n < 6 ==> blanks > 0)
    ensures n < 6 ==> |t| == n + 1 && t[n] == blanks
    ensures n == 6 ==> |t| == 6
    ensures forall k :: 0 <= k < |t| - (if n < 6 then 1 else 0) ==> t[k] == 0
  {
    seq(n, _ => 0) + if n < 6 then [blanks] else []
  }

  /** One pass of the loop body of `generatePuzzle`: a fresh solution and a puzzle
      carved from it for the level's number of removals, which takes at least the
      80 draws of the carver's shuffle. */
  method PuzzlePair(level: string, rng: Rng) returns (puzzle: array2<int>, solution: array2<int>)
    modifies rng
    ensures fresh(puzzle) && fresh(solution) && puzzle.Length0 == 9 && puzzle.Length1 == 9
    ensures solution.Length0 == 9 && solution.Length1 == 9
    ensures Generated(Grid(puzzle), Grid(solution), level)
    ensures rng.drawn >= old(rng.drawn) + 80
  {
    solution := GenerateSolution(rng);
    var removals := DifficultyToRemovals(level);
    puzzle := MakePuzzleFromSolution(solution, removals, rng);
    Guarantees(Grid(puzzle), Grid(solution), level);
  }

  /** `generatePuzzle(level)`: up to six attempts of a fresh solution and a puzzle
      carved from it, returning the first puzzle with a blank cell; after six misses,
      one more pair returned without that check. The loop runs the same passes as
      the source's `for` with its early `return`: pass n < 6 is attempt n, and pass 6
      is the fallback (whose blanks are counted but not checked). `attempt` is the
      pass returned and `tried` the blank counts the check saw, in order; each pass
      takes at least 80 draws, so the draws used bound the number of passes from
      below. Either way the puzzle was carved from the returned solution, and a
      solved solution is the puzzle's only completion. */
  method GeneratePuzzle(level: string, rng: Rng)
    returns (puzzle: array2<int>, solution: array2<int>, ghost attempt: nat, ghost tried: seq<nat>)
    modifies rng
    ensures fresh(puzzle) && fresh(solution) && puzzle.Length0 == 9 && puzzle.Length1 == 9
    ensures solution.Length0 == 9 && solution.Length1 == 9
    ensures CarvedFrom(Grid(puzzle), Grid(solution))
    ensures Solved(Grid(solution)) || Grid(solution) == EmptyGrid()
    ensures Solved(Grid(solution)) ==> Solutions(Grid(puzzle), 2) == [Grid(solution)]
    ensures Solved(Grid(solution)) ==> Zeros(Grid(puzzle)) <= DifficultyToRemovals(level)
    ensures attempt <= 6 && (attempt < 6 ==> Zeros(Grid(puzzle)) > 0)
    ensures attempt < 6 ==> |tried| == attempt + 1 && tried[attempt] == Zeros(Grid(puzzle))
    ensures attempt == 6 ==> |tried| == 6
    ensures forall k :: 0 <= k < |tried| - (if attempt < 6 then 1 else 0) ==> tried[k] == 0
    ensures rng.drawn >= old(rng.drawn) + 80 * |tried| + (if attempt == 6 then 80 else 0)
  {
    var n := 0;
    puzzle, solution := PuzzlePair(level, rng);
    var blanks := CountBlanks(puzzle);
    while blanks == 0 && n < 6
      invariant n <= 6
      invariant fresh(puzzle) && fresh(solution) && puzzle.Length0 == 9 && puzzle.Length1 == 9
      invariant solution.Length0 == 9 && solution.Length1 == 9
      invariant Generated(Grid(puzzle), Grid(solution), level) && blanks == Zeros(Grid(puzzle))
      invariant rng.drawn >= old(rng.drawn) + 80 * (n + 1)
    {
      // pass n found no blank; the next pass is attempt n + 1, or the fallback after six
      n := n + 1;
      puzzle, solution := PuzzlePair(level, rng);
      blanks := CountBlanks(puzzle);
    }
    attempt := n;
    tried := AttemptLog(n, blanks);
  }

  /** What a carved pair guarantees when its solution is solved. */
  lemma Guarantees(p: Board, s: Board, level: string)
    requires WellFormed(p) && WellFormed(s) && CarvedFrom(p, s)
    requires Solved(s) ==> |Solutions(p, 2)| == 1
    requires Zeros(p) <= Zeros(s) + DifficultyToRemovals(level)
    ensures Solved(s) ==> Solutions(p, 2) == [s] && Zeros(p) <= DifficultyToRemovals(level)
  {
    if Solved(s) {
      CarvedUnique(p, s);
      NoZeros(s);
    }
  }
}
