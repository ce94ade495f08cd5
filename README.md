# Sudoku engine and task list, modelled in Dafny

This project models the in-browser sudoku engine of `web-project/scripts/sudoku.js`,
the in-memory task list of `web-project/scripts/main.js` and the to-do list of
`web-project/scripts/todo.js`.

The sudoku engine works on a 9x9 board of integers in which 0 is an empty cell:

- `rngShuffle` is a Fisher-Yates shuffle.
- `isValid` is the legality test for a row, a column and a 3x3 block.
- `countSolutions` is a depth-first search that runs on a private copy of the board, writes a digit, recurses and writes 0 back. It stops once `limit` complete boards have been reached.
- `generateSolution` fills an empty board by randomized backtracking.
- `makePuzzleFromSolution` blanks cells of a solution in random order. It keeps a blank only while `countSolutions(p, 2)` is 1.
- `difficultyToRemovals` is the difficulty table.
- `generatePuzzle` retries generation up to six times, then takes an unchecked fallback.
- `checkBoard` classifies the board the player has filled in.
- `moveFocus` finds the next editable cell.

The page of `main.js` keeps a list of task records. Its operations:

- adding, toggling, deleting and editing tasks;
- the status/category/search filter applied before rendering;
- the three sort modes;
- the counts shown as statistics.

The page of `todo.js` keeps a list of todo records. Its operations:

- adding a todo at the end, deleting, toggling and editing todos, and clearing the finished ones;
- the filtered and sorted copy the list renders (filters 'all', 'active', 'done'; sort modes 'created_asc', 'created_desc', 'priority_desc');
- the counter of all and of unfinished todos.

Modules, one per file:

- `SudokuBoard` (`sudoku_board.dfy`): the board, seen as a sequence of rows (`Board`), as the value of a 9x9 array (`Grid`), its units, the legality test and the count of empty cells.
- `SudokuRandom` (`sudoku_random.dfy`): the random source and the shuffle.
- `SudokuSearch` (`sudoku_search.dfy`): the solution counter.
  - The ghost function `Search` specifies what `dfs` reaches: the list of complete boards, in order.
  - The lemmas show that this list consists of distinct completions of the input, stays within the limit, and holds every completion when the limit is not reached.
  - The methods `Dfs`, `DigitLoop`, `PlaceAndSearch`, `FindEmpty` and `CountSolutions` run in place on an array and are proved equal to that specification.
- `SudokuGenerate` (`sudoku_generate.dfy`): solution generation, carving, the difficulty table and the puzzle factory.
- `SudokuCheck` (`sudoku_check.dfy`): answer checking and focus advance.
- `Common` (`common.dfy`): an option type, and `filter` / `find` over sequences.
- `TaskBoard` (`tasks.dfy`): task records, the filter, the sort, the statistics, and the page state as a class whose methods update it.
- `TodoList` (`todo.dfy`): todo records, the view's filter and sort, the counter, and the page state as a class whose methods update it.

The only external input of the engine is `Math.random()`. It is modelled as a stream `u: nat -> [0, 1)` of reals read in order, so every statement about shuffling and generation holds for every sequence of draws. The board arrays of the source (arrays of row arrays) are modelled as `array2<int>`.

In `main.js` and `todo.js`, several inputs are parameters of the model:

- the clock (`Date.now`, `new Date().toISOString()`) and `Math.random`, which make the ids and the creation instants: an id is a parameter of type `string`, and a creation instant is a parameter of type `int`;
- `String.prototype.trim`, `toLowerCase` and `localeCompare`, given as functions `trim`, `lower` and `collate`;
- the user's answer to `confirm` in `deleteTask`; in `todo.js` the confirmation sits in the click handlers, outside `deleteTodo` and `clearDone`, which are modelled as called.

`localStorage` is modelled as a field `stored` that holds what `saveTasks` / `saveTodos` last wrote.

Two points of the sudoku model follow the code as it stands:

- `difficultyToRemovals` returns 56 for every level other than "easy" and "medium" (web-project/scripts/sudoku.js:313), so an unknown level gets the largest number of blanks.
- No entry point checks the size of a board or that its cells lie in 0-9; the functions take the board as given, and no such check is modelled.

## Model

| member | source | states |
|---|---|---|
| SudokuRandom.FloorBelow | web-project/scripts/sudoku.js:57 | `Math.floor(x * n)` for a draw x in [0, 1) and n > 0 is an index in [0, n - 1] |
| SudokuRandom.Rng.Below | web-project/scripts/sudoku.js:57 | the index drawn is `floor(u(k) * n)` for the next unread draw u(k); it lies in [0, n - 1] and consumes exactly one draw |
| SudokuRandom.Shuffle | web-project/scripts/sudoku.js:53-63 | whatever the draws, the array ends as a permutation (same multiset) of its old contents; one draw is used per index above 0 |
| SudokuBoard.EmptyBoard | web-project/scripts/sudoku.js:69-80 | a fresh 9x9 board whose every cell is 0 |
| SudokuBoard.CopyBoard | web-project/scripts/sudoku.js:140 | a fresh array with exactly the cells of the given board, which is not written |
| SudokuBoard.Place | web-project/scripts/sudoku.js:176 | writing v at (r, c) changes that cell to v and no other cell |
| SudokuBoard.Legal | web-project/scripts/sudoku.js:96-122 | the legality test of `isValid` as a predicate: v is absent from row r, column c and the 3x3 block with origin (r/3*3, c/3*3); `IsValid` computes it and `IsValidUnits` restates it by units |
| SudokuBoard.IsValid | web-project/scripts/sudoku.js:96-122 | true exactly when v occurs nowhere in row r, column c or the 3x3 block with origin (r/3*3, c/3*3); the cell (r, c) itself is part of the test |
| SudokuBoard.IsValidUnits | web-project/scripts/sudoku.js:96-122 | the same test, stated by units: it fails exactly when some cell sharing a row, column or block with (r, c), (r, c) included, holds v |
| SudokuBoard.PlaceKeepsNoConflicts | web-project/scripts/sudoku.js:175-176 | writing a digit that the test accepts into a board with no repeated digit in any unit keeps that property |
| SudokuBoard.BoardExt | web-project/scripts/sudoku.js:178 | two boards that agree on all 81 cells are the same board (how "written back to 0" restores the board) |
| SudokuBoard.NoZeros | web-project/scripts/sudoku.js:153-170 | the count of empty cells is 0 exactly when no cell holds 0, i.e. when the scan of `dfs` finds no empty cell |
| SudokuBoard.PlaceZeros | web-project/scripts/sudoku.js:176-178 | writing v at (r, c) changes the count of empty cells by exactly one for each side that is 0, so filling an empty cell shrinks the search |
| SudokuSearch.Search | web-project/scripts/sudoku.js:148-184 | what `dfs` reaches from board g with the boards `found` so far: nothing more once the limit is reached, g itself when it has no empty cell, otherwise the digit loop at the first empty cell; the result extends `found` |
| SudokuSearch.TryDigits | web-project/scripts/sudoku.js:173-183 | the digit loop from n on at the empty cell (r, c): a digit the test accepts is written and searched, and the loop stops as soon as the limit is reached; the result extends `found` |
| SudokuSearch.EffectiveLimit | web-project/scripts/sudoku.js:137 | the default of `countSolutions` for a falsy limit: a 0 limit becomes 2 and any other limit is kept, so the effective limit is never 0 |
| SudokuSearch.Solutions | web-project/scripts/sudoku.js:136-189 | the boards `countSolutions(g, limit)` reaches, searching from g with no board found and the effective limit; the count is their number |
| SudokuSearch.FirstZeroFrom | web-project/scripts/sudoku.js:153-164 | the row-major position of the first empty cell at or after p (81 when there is none): every position before it is filled |
| SudokuSearch.FindEmpty | web-project/scripts/sudoku.js:153-164 | the scan reports an empty cell exactly when one exists, and then the first one in row-major order |
| SudokuSearch.PlaceCompletes | web-project/scripts/sudoku.js:175-177 | after an accepted digit n is written at an empty cell, every completion of the new board completes the old one and holds n there |
| SudokuSearch.CompletesPlace | web-project/scripts/sudoku.js:173-183 | conversely, every completion of the old board is a completion of the board with its own digit written at that cell, and that digit passes the test |
| SudokuSearch.FullBoardCompletes | web-project/scripts/sudoku.js:167-170 | a board with no empty cell is its own and only completion |
| SudokuSearch.PlacedSearch | web-project/scripts/sudoku.js:175-178 | the boards reached after writing n at the empty cell extend the earlier list within the limit; the new ones are distinct completions holding n there, and all of them when the limit is not reached |
| SudokuSearch.TryDigitsCorrect | web-project/scripts/sudoku.js:173-183 | the digit loop from n on reaches distinct completions whose digit at that cell is at least n, all of them when the limit is not reached, without passing the limit |
| SudokuSearch.IllegalDigitStep | web-project/scripts/sudoku.js:175 | no completion holds at the empty cell a digit the test rejects |
| SudokuSearch.SearchCorrect | web-project/scripts/sudoku.js:148-184 | `dfs` extends the list of reached boards within the limit; the new boards are distinct completions of the board, and every completion is among them when the limit is not reached |
| SudokuSearch.SolutionsBound | web-project/scripts/sudoku.js:136-137 | the count lies in [0, limit] for the effective limit, where a falsy (0) limit becomes 2; a negative limit gives 0 |
| SudokuSearch.SolutionsAreCompletions | web-project/scripts/sudoku.js:148-184 | every counted board keeps all nonzero cells of the input and fills its empty cells without repeating a digit in a unit; counted boards are distinct; a count below the limit counts all completions |
| SudokuSearch.FullBoardCountsOne | web-project/scripts/sudoku.js:167-170 | a board with no zero counts exactly one solution, itself, for any limit >= 0, whether or not its digits are legal |
| SudokuSearch.CountOneIsUnique | web-project/scripts/sudoku.js:288-291 | `countSolutions(p, 2) === 1` means p has exactly one completion |
| SudokuSearch.TakeDigit | web-project/scripts/sudoku.js:175-181 | for an accepted digit, the loop stops with the search's list if the limit was reached and otherwise goes on to the next digit |
| SudokuSearch.SkipDigit | web-project/scripts/sudoku.js:175 | a rejected digit is skipped |
| SudokuSearch.Dfs | web-project/scripts/sudoku.js:148-184 | `dfs` leaves the board exactly as it found it, reaches exactly the boards the specification lists, and counts them |
| SudokuSearch.DigitLoop | web-project/scripts/sudoku.js:173-183 | the digit loop leaves the board as it was and reaches the boards of the specified digit loop from 1 |
| SudokuSearch.PlaceAndSearch | web-project/scripts/sudoku.js:175-181 | write n, search and write 0 back: the board is restored, and the loop's outcome matches the specification for that digit |
| SudokuSearch.CountSolutions | web-project/scripts/sudoku.js:136-189 | searches a private copy (the caller's board is not modified); returns the number of boards the specification reaches, within [0, limit] after the falsy-to-2 default |
| SudokuGenerate.Range | web-project/scripts/sudoku.js:262-265 | the positions list before the shuffle, lo .. lo + n - 1, has n entries |
| SudokuGenerate.RangeAt | web-project/scripts/sudoku.js:262-265 | entry k of that list is lo + k |
| SudokuGenerate.RangeMultiset | web-project/scripts/sudoku.js:262-265 | each value of lo .. lo + n - 1 occurs in the list exactly once, and no other value occurs |
| SudokuGenerate.PermutationOfRange | web-project/scripts/sudoku.js:262-268 | any rearrangement of that list holds no value twice, holds every value of the range, and holds nothing outside it |
| SudokuGenerate.ShuffledRange | web-project/scripts/sudoku.js:262-268 | a fresh array holding a permutation of lo .. lo + n - 1: no entry twice, every value of the range present, nothing outside it; for n > 0 the shuffle uses exactly n - 1 draws |
| SudokuGenerate.FillStep | web-project/scripts/sudoku.js:222-223 | writing a digit at position pos of a board filled before pos gives one filled before pos + 1, earlier cells untouched |
| SudokuGenerate.FilledIsSolved | web-project/scripts/sudoku.js:210 | a consistent board with a digit at all 81 positions is solved |
| SudokuGenerate.Fill | web-project/scripts/sudoku.js:208-236 | on true the board holds a digit 1-9 in all 81 cells with no repeat in any row, column or block, and cells before pos are unchanged; on false the board is exactly as it was, so cells pos..80 are still 0; draws are only ever consumed |
| SudokuGenerate.GenerateSolution | web-project/scripts/sudoku.js:196-241 | the result is a solved board, or, should the fill fail, the empty board; draws are only ever consumed |
| SudokuGenerate.SolvedCompletesCarved | web-project/scripts/sudoku.js:282-297 | a solved board completes every puzzle carved out of it |
| SudokuGenerate.CarvedUnique | web-project/scripts/sudoku.js:288-297 | a puzzle carved from a solved board with count 1 has that board as its only solution |
| SudokuGenerate.CarveStep | web-project/scripts/sudoku.js:282-285 | blanking one more cell keeps the puzzle carved from the solution, with at most one more empty cell |
| SudokuGenerate.BlankIfUnique | web-project/scripts/sudoku.js:282-297 | the blank is kept exactly when the board with that cell set to 0 has a count of 1; a kept blank leaves the board with that one cell set to 0, otherwise the backed-up value is written back and the board is as before |
| SudokuGenerate.CarvingStep | web-project/scripts/sudoku.js:273-297 | one visit of the carving loop keeps its invariant, counting a kept blank |
| SudokuGenerate.CarveLoop | web-project/scripts/sudoku.js:270-298 | after the loop the puzzle is carved from the solution with at most `removed` new blanks, `removed` within the target, and count 1 if any blank was kept; for a solved solution exactly `removed` cells are blank, untried positions still hold the solution's digit, every tried position still holding a digit would leave two completions if blanked, and all 81 positions were tried when fewer than the target were kept |
| SudokuGenerate.AllVisited | web-project/scripts/sudoku.js:273-298 | once every entry of a list holding all 81 positions has been tried, every position has |
| SudokuGenerate.CarveAt | web-project/scripts/sudoku.js:275-297 | one visit of the loop: the position is blanked when the puzzle keeps exactly one completion, and the loop's invariant holds again with that position among those tried |
| SudokuGenerate.CarveStateStep | web-project/scripts/sudoku.js:275-297 | one visit keeps both halves of the loop's invariant, counting a kept blank |
| SudokuGenerate.ExhaustingStart | web-project/scripts/sudoku.js:257-268 | before the loop, the copy of a solved board has no blank and every position still holds the solution's digit |
| SudokuGenerate.FewerCluesCompletes | web-project/scripts/sudoku.js:282-291 | a completion of a puzzle carved from a solved board also completes every puzzle carved from that puzzle |
| SudokuGenerate.TwoCompletionsCountTwo | web-project/scripts/sudoku.js:288-291 | a board with two distinct completions has `countSolutions(p, 2) === 2` |
| SudokuGenerate.TwoStaysTwo | web-project/scripts/sudoku.js:288-294 | a puzzle carved from a solved board whose count is 2 still counts 2 after more cells are blanked, so a rejected position stays rejected |
| SudokuGenerate.NotOneIsTwo | web-project/scripts/sudoku.js:288-294 | for a puzzle carved from a solved board, a count other than 1 after blanking a cell is 2, never 0, since the solution still completes it |
| SudokuGenerate.KeptStaysTwo | web-project/scripts/sudoku.js:282-297 | after a kept blank, every earlier tried position still holding a digit would still leave two completions if blanked |
| SudokuGenerate.ExhaustingStep | web-project/scripts/sudoku.js:275-297 | one visit keeps the exhaustion half of the invariant: a kept blank adds one blank cell, and a rejected position would leave two completions |
| SudokuGenerate.CarvingMaximal | web-project/scripts/sudoku.js:273-298 | when all 81 positions were tried, blanking any remaining clue of the puzzle would leave two completions |
| SudokuGenerate.CarvingResult | web-project/scripts/sudoku.js:257-301 | the loop's invariant gives the carver's guarantees, including that a puzzle short of the target cannot lose another clue and keep one completion |
| SudokuGenerate.MakePuzzleFromSolution | web-project/scripts/sudoku.js:257-301 | `sol` is not modified; every puzzle cell equals `sol` or is 0; at most `removals` zeros are introduced (none for removals <= 0); from a zero-free `sol` the puzzle has count 1; from a solved `sol`, a puzzle with fewer blanks than the target would have two completions after blanking any remaining clue; the shuffle takes exactly 80 draws |
| SudokuGenerate.DifficultyToRemovals | web-project/scripts/sudoku.js:310-314 | 40 exactly for "easy", 50 exactly for "medium", 56 for any other value |
| SudokuGenerate.RemovalsOrdered | web-project/scripts/sudoku.js:310-314 | the targets grow from easy to medium to any other level, and at least 25 clues are always kept |
| SudokuGenerate.CountBlanks | web-project/scripts/sudoku.js:334-339 | the blank-counting loop returns the number of empty cells |
| SudokuGenerate.Guarantees | web-project/scripts/sudoku.js:342-352 | for a solved solution, a carved pair has that solution as the puzzle's unique completion and at most the target number of blanks |
| SudokuGenerate.PuzzlePair | web-project/scripts/sudoku.js:325-331 | one attempt yields fresh arrays: a solution that is solved or empty, and a puzzle carved from it whose only completion, for a solved solution, is that solution, with at most the target blanks; the pair takes at least 80 draws |
| SudokuGenerate.AttemptLog | web-project/scripts/sudoku.js:323-343 | the blank counts the check sees when pass n is kept: zeros for the n passes before it, then its own nonzero count unless it is the fallback after six |
| SudokuGenerate.GeneratePuzzle | web-project/scripts/sudoku.js:321-353 | a returned attempt k < 6 has a blank cell; the recorded counts are 0 for every attempt before it, and the fallback pair comes only after six; at least 80 draws are used per recorded attempt and per fallback; in every case the puzzle is carved from the returned solution, and a solved solution is its only completion with at most the target blanks |
| SudokuCheck.CheckBoard | web-project/scripts/sudoku.js:543-578 | a cell is marked incorrect exactly when it is nonzero and differs from the solution; the outcome is solved iff nothing is empty and nothing marked, wrong iff something is marked (even with empty cells), incomplete otherwise |
| SudokuCheck.PassesIffSolution | web-project/scripts/sudoku.js:569-570 | against a solution without empty cells, a board passes the check exactly when it equals the solution |
| SudokuCheck.MoveFocus | web-project/scripts/sudoku.js:496-517 | the target is the first non-clue cell after (r, c) in row-major order (rest of the row, then the rows below); none when every later cell is a clue |
| Common.Filter | web-project/scripts/main.js:164 | `filter` keeps exactly the elements satisfying the predicate, each taken from the input, never more than the input has |
| Common.FilterMultiset | web-project/scripts/main.js:222-234 | a filtered list holds each element at most as often as the input |
| Common.FilterAppend | web-project/scripts/main.js:164 | filtering a concatenation filters each part and concatenates, so `filter` keeps the original order |
| Common.FilterSplit | web-project/scripts/main.js:356-357 | the elements kept and the elements dropped by a predicate together number the whole list |
| Common.FirstIndex | web-project/scripts/main.js:151 | `find` locates the first element satisfying the predicate, or reports that none does |
| TaskBoard.Shown | web-project/scripts/main.js:222-234 | the filter callback of `renderTasks`: 'active' drops completed tasks, 'completed' drops open ones, a category other than 'all' must match, and a non-empty term must occur in the lower-cased text |
| TaskBoard.FilterTasks | web-project/scripts/main.js:222-234 | a task is kept iff 'active' does not exclude it as completed, 'completed' does not exclude it as open, its category matches unless 'all', and for a non-empty term its lower-cased text contains the term; kept tasks come from the list, each at most as often as there |
| TaskBoard.InOrder | web-project/scripts/main.js:326-352 | the comparator of `sortTasks` allows a before b: 'priority' by higher rank then newer first, 'category' by collation order then newer first, 'time' and any other mode newer first |
| TaskBoard.InOrderTotal | web-project/scripts/main.js:326-352 | every mode's comparator is total and transitive |
| TaskBoard.Insert | web-project/scripts/main.js:326-352 | inserting adds exactly one element to the list's multiset |
| TaskBoard.InsertSorted | web-project/scripts/main.js:326-352 | inserting into a sorted list keeps it sorted |
| TaskBoard.SortTasks | web-project/scripts/main.js:326-352 | the result is a permutation of its input, ordered: 'priority' by 高 > 中 > 低 then newest first, 'category' by collation order then newest first, 'time' and any other mode newest first |
| TaskBoard.NewestFirst | web-project/scripts/main.js:345-348 | in 'time' or an unnamed mode, creation instants never increase along the sorted list |
| TaskBoard.PriorityFirst | web-project/scripts/main.js:330-337 | in 'priority' mode the priority rank never increases along the sorted list |
| TaskBoard.Stats | web-project/scripts/main.js:355-357 | total is the number of tasks; completed is at most the total, and the rest are exactly the open tasks |
| TaskBoard.ToggleCount | web-project/scripts/main.js:150-158 | flipping one task moves the completed count by exactly one, down if it was completed and up otherwise |
| TaskBoard.DeleteSpec | web-project/scripts/main.js:161-169 | after deleting by id no task has that id, every other task remains, and the number removed is the number that carried the id |
| TaskBoard.TaskManager.constructor | web-project/scripts/main.js:5-9 | the stored list becomes the list of tasks, the filter and category are 'all', the sort is 'time' and nothing is being edited |
| TaskBoard.TaskManager.View | web-project/scripts/main.js:217-234 | the rendered list is a permutation of the filtered tasks (the same multiset), is sorted by the current mode, and holds exactly those tasks that pass the current filter, category and search |
| TaskBoard.TaskManager.HandleAddTask | web-project/scripts/main.js:115-142 | input that trims to nothing is refused with nothing changed; otherwise one open task with the trimmed text and an empty description goes to the front, the rest are unchanged, the list is saved, and every task keeps a non-empty text |
| TaskBoard.TaskManager.ToggleTask | web-project/scripts/main.js:150-158 | the first task with the id has its completed flag flipped and the list is saved; an unknown id changes nothing |
| TaskBoard.TaskManager.DeleteTask | web-project/scripts/main.js:161-169 | once confirmed, exactly those tasks with the id are removed, the rest keep their order, and the list is saved; unconfirmed, nothing changes |
| TaskBoard.TaskManager.EditTask | web-project/scripts/main.js:172-184 | the dialog opens on the first task with the id, prefilled from it; an unknown id changes nothing |
| TaskBoard.TaskManager.CloseModal | web-project/scripts/main.js:210-214 | no task is being edited afterwards; the list is unchanged |
| TaskBoard.TaskManager.EditedIndex | web-project/scripts/main.js:190 | the dialog edits the first task with the edited id, and there is none when no id is set or no task has it |
| TaskBoard.TaskManager.HandleSaveTask | web-project/scripts/main.js:187-207 | the list becomes `SaveEdit` of the edited task with the trimmed text, category, priority and trimmed description; only a non-empty text is saved and closes the dialog, and an empty one leaves the changed task in memory, unsaved |
| TaskBoard.TaskManager.SaveTaskChecked | web-project/scripts/main.js:187-207 | the same save with the empty-text check first: an empty text changes nothing, so every task keeps a non-empty text |
| TaskBoard.SaveEdit | web-project/scripts/main.js:192-195 | the edit writes the new text into task i, keeps its id, and changes no other task |
| TaskBoard.SaveTaskEmptiesText | web-project/scripts/main.js:190-200 | a list whose tasks all have text can end, after a refused save, with a task whose text is empty |
| Common.FilterAll | web-project/scripts/todo.js:478 | filtering a list whose every element already satisfies the predicate returns it unchanged |
| Common.FilterSingle | web-project/scripts/todo.js:285 | a one-element list keeps its element exactly when it satisfies the predicate |
| Common.FilterReplace | web-project/scripts/todo.js:478 | replacing one element changes the number of kept elements only by the difference that element makes |
| TodoList.Passes | web-project/scripts/todo.js:334-346 | the filter of `getViewTodos`: 'active' admits only unfinished todos, 'done' only finished ones, every other value all |
| TodoList.FilterView | web-project/scripts/todo.js:334-346 | the copy holds only todos that pass the filter ('active': unfinished, 'done': finished, any other value: all), holds every todo that passes, each at most as often as in the list, and for a filter other than 'active' or 'done' is the list itself |
| TodoList.InOrder | web-project/scripts/todo.js:352-366 | the comparator of each sort mode allows a before b: 'created_asc' older first, 'created_desc' newer first, 'priority_desc' higher priority then newer first; any other mode leaves the copy unsorted |
| TodoList.InOrderTotal | web-project/scripts/todo.js:352-366 | each mode's comparator is total and transitive |
| TodoList.Insert | web-project/scripts/todo.js:352-366 | inserting adds exactly the one element to the list's multiset |
| TodoList.InsertSorted | web-project/scripts/todo.js:352-366 | inserting into a list sorted by a mode's comparator keeps it sorted |
| TodoList.SortedCons | web-project/scripts/todo.js:352-366 | a head that may precede the first element of a sorted list gives a sorted list |
| TodoList.HeadPrecedesInsert | web-project/scripts/todo.js:352-366 | when the new element goes after the head, the head precedes every element after it |
| TodoList.SortTodos | web-project/scripts/todo.js:352-366 | `view.sort(...)` returns a permutation of its input ordered by the mode's comparator: createdAt ascending for 'created_asc', descending for 'created_desc', and priority descending then createdAt descending for 'priority_desc' |
| TodoList.Counter | web-project/scripts/todo.js:475-478 | the counter's total is the list's length, the unfinished number is at most the total, and their difference is the number of finished todos |
| TodoList.AddCounter | web-project/scripts/todo.js:475-478 | appending an unfinished todo adds one to the total and one to the unfinished number |
| TodoList.ToggleCounter | web-project/scripts/todo.js:475-478 | flipping one todo keeps the total and moves the unfinished number by one, up for a finished todo and down for an unfinished one |
| TodoList.EditCounter | web-project/scripts/todo.js:475-478 | changing a todo's text changes neither number |
| TodoList.ClearDoneCounter | web-project/scripts/todo.js:475-478 | after clearing, the total and the unfinished number both equal the old unfinished number |
| TodoList.DeleteCounter | web-project/scripts/todo.js:475-478 | deleting an id no todo carries leaves the list unchanged; otherwise the total drops by the number of todos with that id, and no remaining todo carries it |
| TodoList.TodoApp.constructor | web-project/scripts/todo.js:88-135 | the loaded list becomes the list and the stored copy, with filter 'all' and sort mode 'created_desc' |
| TodoList.TodoApp.ViewTodos | web-project/scripts/todo.js:332-370 | the view is a permutation of the filtered todos (the same multiset), sorted by the current mode's comparator, and holds exactly the todos that pass the filter; for a mode other than the three, it is the filtered copy in list order; the list itself is not changed |
| TodoList.TodoApp.AddTodoFromInput | web-project/scripts/todo.js:157-210 | input that trims to nothing is refused with nothing changed; otherwise one unfinished todo with the trimmed text and priority 1 goes to the end, the other todos are unchanged, and the list is saved |
| TodoList.TodoApp.DeleteTodo | web-project/scripts/todo.js:216-226 | the list becomes the old list filtered to the todos with another id, in order, and is saved |
| TodoList.TodoApp.ToggleDone | web-project/scripts/todo.js:233-252 | only the first todo with the id flips its state, and the list is saved; an unknown id changes nothing |
| TodoList.TodoApp.EditTodo | web-project/scripts/todo.js:260-277 | only the first todo with the id takes the trimmed text, and the list is saved; an unknown id changes nothing |
| TodoList.TodoApp.ClearDone | web-project/scripts/todo.js:283-292 | the list becomes the old list filtered to the unfinished todos, in order, and is saved |
| TodoList.TodoApp.SetFilter | web-project/scripts/todo.js:298-313 | only the filter changes, to the new value |
| TodoList.TodoApp.SetSort | web-project/scripts/todo.js:319-325 | only the sort mode changes, to the new value |

## Left out

- TodoList.TodoApp.ViewTodos: `Array.prototype.sort` sorts the copy in place; the model sorts it with a functional insertion sort, and does not state that todos the comparator ranks equal keep their list order, as the stable sort guarantees. Comparator results of NaN (a record loaded without a numeric `createdAt` or `priority`) are excluded by the integer fields.
- `startEditing` with its `finishSave` and `cancelEdit` is DOM editing; `finishSave` calls `editTodo` only with a non-empty trimmed text, and `EditTodo` is modelled as called.
- `makeTodo`'s id (`Date.now()` and a random suffix) and creation instant are parameters of `AddTodoFromInput`.
- `loadTodos`' JSON parsing and its fallback to an empty list, and the error logging of `saveTodos`, are not modelled; the constructor takes the loaded list as given.
- The `window.todoApp` hooks (`getAll`, `clearAll`) are debugging hooks outside the page's state and are not part of this model.
- All DOM work is left out, because it is presentation rather than logic: `createGrid`, `renderPuzzle`, `reset`, `solve`, `render`, `createTaskElement`, `focus`, `classList`, `alert`, event binding and the keyboard shortcuts. `checkBoard` returns its marks and its outcome instead of styling cells and alerting.
- The handlers that only assign `currentFilter`, `currentCategory` or `currentSort` are left out; they are DOM event bindings, and `View` takes those fields as they stand.
- `readBoard` is left out: it reads the inputs, trims them and applies `parseInt`. `checkBoard` takes the board as integers, and the input sanitizer that admits only 1-9 is not modelled.
- `moveFocus` takes the cells carrying the 'clue' class as a boolean mask, because those cells are DOM state.
- `Math.random` is replaced by an injected stream of draws in [0, 1).
- The `setTimeout` delays are left out because they are cosmetic.
- GenerateSolution: the model does not prove that the fill always succeeds, because that would need a search-heavy existence argument. It proves what a successful fill yields, and that a failed fill leaves the empty board.
- CountSolutions: `limit || 2` also turns `undefined`, `NaN` and `false` into 2. The model's limit is an integer, so only 0 is falsy.
- The boards are `array2<int>`, while the source uses arrays of row arrays. Row arrays shared between two boards cannot be expressed in the model; the source copies every row, so there is no such sharing there.
- ToggleTask and HandleSaveTask replace the element at the found index. The source mutates the object that `find` returned, which has the same effect on the list because its records are distinct objects.
- A failing `localStorage.setItem` (the error alert in `saveTasks`) is not modelled, and neither are `loadTasks`' JSON parsing and its fallback to an empty list. The constructor takes the loaded list as given.
- Ids and creation instants come from the clock and are parameters. `formatDate`, the `todayTasks` count and the `completionRate` (float division and rounding) are left out.
- TodoList.SortTodos: does not state that todos the comparator ranks equal keep their input order, as the stable `Array.prototype.sort` guarantees; it states a sorted permutation only.
- GeneratePuzzle: the recorded blank counts are computed from the loop's counter and the last pass's count, not observed from each discarded pair, so the contract cannot show that each discarded pair really had no blank; the draws bound only shows that at least that many pairs were generated.
- SortTasks: does not state that tasks the comparator ranks equal keep their input order, as the stable `Array.prototype.sort` guarantees. `localeCompare` is modelled as comparison of an abstract collation key per category, and priorities outside 高/中/低 (which make the comparator NaN) are excluded by the `Priority` type.
- The theme toggle, data export, `handleSearch` and the keyboard shortcuts are left out; they are I/O or DOM.

## Findings

| source | as written | input that shows it | evidently intended | confidence | as-written member | corrected member |
|---|---|---|---|---|---|---|
| web-project/scripts/main.js:190-200 | `handleSaveTask` writes the trimmed text, category, priority and description into the edited task before refusing an empty text, so a refused save leaves that task with an empty text in memory; the next `saveTasks` of any other change persists it | a list with one task whose text is "a", edited to a text that trims to "" | check the text first and leave that task unchanged when the text is empty, keeping every task's text non-empty as `handleAddTask` does | medium; not executed | TaskBoard.TaskManager.HandleSaveTask, TaskBoard.SaveTaskEmptiesText | TaskBoard.TaskManager.SaveTaskChecked |
