/**
  The puzzle generator worker (js/generator-worker.js): a randomised
  backtracking search fills an empty board, then a count of cells chosen by a
  shuffle of all 81 positions is blanked. The board is a value; the search's
  "place, recurse, undo" is modelled on a local copy. The `k`-th call of
  `shuffle` inside the search draws `rng(k)`; the shuffle of the positions
  draws `positionDraws`.
 */
module Backtracking {
  import opened Board
  import Shuffle
  import FormulaGenerator
  import opened Wrappers

  /** `const numbers = [1, 2, 3, 4, 5, 6, 7, 8, 9]`, written as a comprehension. */
  const Numbers: seq<int> := seq(9, i => i + 1)

  /** A draw oracle: every shuffle of `numbers` gets nine valid draws. */
  ghost predicate ValidOracle(rng: nat -> seq<int>) {
    forall k :: Shuffle.ValidDraws(rng(k), 9)
  }

  // ---------------------------------------------------------------------------
  // isValidPlacement

  /** `num` is not in cell (row, col) and no peer of that cell holds it. */
  predicate Placeable(g: Grid, row: int, col: int, num: int)
    requires IsGrid(g) && InBounds(row, col)
  {
    g[row][col] != num &&
    forall r2, c2 | 0 <= r2 < 9 && 0 <= c2 < 9 && Peers(row, col, r2, c2) :: g[r2][c2] != num
  }

  /** A cell of the 3x3 box holding (row, col) lies `i` rows and `j` columns from its corner. */
  lemma BoxNeighbour(row: int, col: int, r2: int, c2: int)
    requires InBounds(row, col) && InBounds(r2, c2) && BoxIndex(row, col) == BoxIndex(r2, c2)
    ensures 0 <= r2 - (row / 3) * 3 < 3 && 0 <= c2 - (col / 3) * 3 < 3
  {
  }

  lemma BoxCorner(row: int, col: int, i: int, j: int)
    requires InBounds(row, col) && 0 <= i < 3 && 0 <= j < 3
    ensures InBounds((row / 3) * 3 + i, (col / 3) * 3 + j)
    ensures BoxIndex((row / 3) * 3 + i, (col / 3) * 3 + j) == BoxIndex(row, col)
  {
  }

  /** Cell (i, j) of the 3x3 box holding (row, col), counted from its top-left corner. */
  function BoxValue(g: Grid, row: int, col: int, i: int, j: int): int
    requires IsGrid(g) && InBounds(row, col) && 0 <= i < 3 && 0 <= j < 3
  {
    g[(row / 3) * 3 + i][(col / 3) * 3 + j]
  }

  /** `isValidPlacement`: scans the row, the column and the box of (row, col). */
  method IsValidPlacement(grid: Grid, row: int, col: int, num: int) returns (ok: bool)
    requires IsGrid(grid) && InBounds(row, col)
    ensures ok <==> Placeable(grid, row, col, num)
  {
    for x := 0 to 9
      invariant forall x' :: 0 <= x' < x ==> grid[row][x'] != num
    {
      if grid[row][x] == num {
        return false;
      }
    }
    for x := 0 to 9
      invariant forall x' :: 0 <= x' < x ==> grid[x'][col] != num
    {
      if grid[x][col] == num {
        return false;
      }
    }
    var startRow := (row / 3) * 3;
    var startCol := (col / 3) * 3;
    for i := 0 to 3
      invariant forall i', j' :: 0 <= i' < i && 0 <= j' < 3 ==> BoxValue(grid, row, col, i', j') != num
    {
      for j := 0 to 3
        invariant forall j' :: 0 <= j' < j ==> BoxValue(grid, row, col, i, j') != num
      {
        if grid[startRow + i][startCol + j] == num {
          BoxCorner(row, col, i, j);
          return false;
        }
      }
    }
    forall r2, c2 | 0 <= r2 < 9 && 0 <= c2 < 9 && Peers(row, col, r2, c2)
      ensures grid[r2][c2] != num
    {
      if r2 != row && c2 != col {
        BoxNeighbour(row, col, r2, c2);
        assert BoxValue(grid, row, col, r2 - startRow, c2 - startCol) != num;
      }
    }
    return true;
  }

  /** Placing a placeable value in an empty cell keeps the board free of conflicts. */
  lemma PlacementKeepsNoConflicts(g: Grid, row: int, col: int, num: int)
    requires IsGrid(g) && InBounds(row, col) && NoConflicts(g) && Placeable(g, row, col, num)
    ensures NoConflicts(g[row := g[row][col := num]])
  {
    var g' := g[row := g[row][col := num]];
    forall r1, c1, r2, c2 |
      0 <= r1 < 9 && 0 <= c1 < 9 && 0 <= r2 < 9 && 0 <= c2 < 9 && Peers(r1, c1, r2, c2) && g'[r1][c1] != 0
      ensures g'[r1][c1] != g'[r2][c2]
    {
      if r1 == row && c1 == col {
        assert g'[r2][c2] == g[r2][c2];
      } else if r2 == row && c2 == col {
        assert Peers(row, col, r1, c1);
      } else {
        assert g'[r1][c1] == g[r1][c1] && g'[r2][c2] == g[r2][c2];
      }
    }
  }

  // ---------------------------------------------------------------------------
  // fillGrid

  /** No cell holds 0. */
  predicate NoEmpty(g: Grid)
    requires IsGrid(g)
  {
    forall r, c | 0 <= r < 9 && 0 <= c < 9 :: g[r][c] != 0
  }

  /** Every cell holds 0..9 and no nonzero value repeats among peers. */
  predicate Consistent(g: Grid) {
    IsGrid(g) && (forall r, c | 0 <= r < 9 && 0 <= c < 9 :: 0 <= g[r][c] <= 9) && NoConflicts(g)
  }

  /** `after` keeps every nonzero cell of `before`. */
  predicate KeepsClues(before: Grid, after: Grid)
    requires IsGrid(before) && IsGrid(after)
  {
    forall r, c | 0 <= r < 9 && 0 <= c < 9 && before[r][c] != 0 :: after[r][c] == before[r][c]
  }

  function EmptyCells(g: Grid): set<(int, int)>
    requires IsGrid(g)
  {
    set r, c | 0 <= r < 9 && 0 <= c < 9 && g[r][c] == 0 :: (r, c)
  }

  /** The first empty cell in row-major order, as the two `for` loops find it. */
  function FirstEmpty(g: Grid): (cell: Option<(int, int)>)
    requires IsGrid(g)
    ensures cell.None? ==> NoEmpty(g)
    ensures cell.Some? ==> InBounds(cell.value.0, cell.value.1) && g[cell.value.0][cell.value.1] == 0
  {
    FirstEmptyFrom(g, 0)
  }

  function FirstEmptyFrom(g: Grid, k: int): (cell: Option<(int, int)>)
    requires IsGrid(g) && 0 <= k <= 81
    requires forall i | 0 <= i < k :: g[i / 9][i % 9] != 0
    ensures cell.None? ==> NoEmpty(g)
    ensures cell.Some? ==> InBounds(cell.value.0, cell.value.1) && g[cell.value.0][cell.value.1] == 0
    decreases 81 - k
  {
    if k == 81 then
      NoEmptyByIndex(g);
      None
    else if g[k / 9][k % 9] == 0 then Some((k / 9, k % 9))
    else FirstEmptyFrom(g, k + 1)
  }

  lemma NoEmptyByIndex(g: Grid)
    requires IsGrid(g) && forall i | 0 <= i < 81 :: g[i / 9][i % 9] != 0
    ensures NoEmpty(g)
  {
    forall r, c | 0 <= r < 9 && 0 <= c < 9 ensures g[r][c] != 0 {
      var i := r * 9 + c;
      assert i / 9 == r && i % 9 == c;
    }
  }

  /** Filling an empty cell leaves one empty cell fewer. */
  lemma PlacementShrinksEmpty(g: Grid, row: int, col: int, num: int)
    requires IsGrid(g) && InBounds(row, col) && g[row][col] == 0 && num != 0
    ensures EmptyCells(g[row := g[row][col := num]]) == EmptyCells(g) - {(row, col)}
    ensures |EmptyCells(g[row := g[row][col := num]])| < |EmptyCells(g)|
  {
    assert (row, col) in EmptyCells(g);
  }

  /** The shuffled `numbers` hold exactly the digits. */
  lemma ShuffledNumbers(draws: seq<int>, x: int)
    requires Shuffle.ValidDraws(draws, 9)
    ensures var order := Shuffle.FisherYates(Numbers, draws);
      |order| == 9 && (x in order <==> IsDigit(x))
  {
    DigitsPermutation(Shuffle.FisherYates(Numbers, draws), x);
  }

  lemma DigitsPermutation(order: seq<int>, x: int)
    requires multiset(order) == multiset(Numbers)
    ensures |order| == 9 && (x in order <==> IsDigit(x))
  {
    assert |order| == |multiset(order)|;
    Shuffle.SameElements(Numbers, order, x);
    if x in Numbers {
      var k :| 0 <= k < 9 && Numbers[k] == x;
    }
    if IsDigit(x) {
      assert Numbers[x - 1] == x;
    }
  }

  /** A value blocked at (row, col) is not what any completion puts there. */
  lemma BlockedValueExcluded(grid: Grid, row: int, col: int, num: int, s: Grid)
    requires IsGrid(grid) && InBounds(row, col) && grid[row][col] == 0
    requires !Placeable(grid, row, col, num) && Completes(s, grid)
    ensures s[row][col] != num
  {
    if num != 0 {
      var r2, c2 :| 0 <= r2 < 9 && 0 <= c2 < 9 && Peers(row, col, r2, c2) && grid[r2][c2] == num;
      assert s[r2][c2] == num;
    }
  }

  /** A completion that agrees with a tentative placement completes the placed board. */
  lemma CompletionOfPlacement(grid: Grid, row: int, col: int, num: int, s: Grid)
    requires IsGrid(grid) && InBounds(row, col) && Completes(s, grid) && s[row][col] == num
    ensures Completes(s, grid[row := grid[row][col := num]])
  {
  }

  /** A completion of the placed board completes the board before the placement. */
  lemma CompletionBeforePlacement(grid: Grid, row: int, col: int, num: int, s: Grid)
    requires IsGrid(grid) && InBounds(row, col) && grid[row][col] == 0
    requires Completes(s, grid[row := grid[row][col := num]])
    ensures Completes(s, grid)
  {
    var g' := grid[row := grid[row][col := num]];
    forall r, c | 0 <= r < 9 && 0 <= c < 9 && grid[r][c] != 0 ensures s[r][c] == grid[r][c] {
      assert g'[r][c] == grid[r][c];
    }
  }

  /** A board with no empty cell and no conflict, holding 0..9, completes itself. */
  lemma FullConsistentIsSolved(g: Grid)
    requires Consistent(g) && NoEmpty(g)
    ensures Completes(g, g)
  {
  }

  /** No completion of `grid` puts any of `vals` at (row, col). */
  ghost predicate Excluded(grid: Grid, row: int, col: int, vals: seq<int>)
    requires InBounds(row, col)
  {
    forall s :: Completes(s, grid) ==> s[row][col] !in vals
  }

  lemma ExcludedExtend(grid: Grid, row: int, col: int, vals: seq<int>, num: int)
    requires InBounds(row, col) && Excluded(grid, row, col, vals)
    requires forall s :: Completes(s, grid) ==> s[row][col] != num
    ensures Excluded(grid, row, col, vals + [num])
  {
  }

  /** A value whose placement the search refuted is excluded. */
  lemma RefutedValueExcluded(grid: Grid, row: int, col: int, num: int, placed: Grid)
    requires IsGrid(grid) && InBounds(row, col) && placed == grid[row := grid[row][col := num]]
    requires forall s :: !Completes(s, placed)
    ensures forall s :: Completes(s, grid) ==> s[row][col] != num
  {
    forall s | Completes(s, grid) ensures s[row][col] != num {
      if s[row][col] == num {
        CompletionOfPlacement(grid, row, col, num, s);
      }
    }
  }

  lemma BlockedExcluded(grid: Grid, row: int, col: int, num: int)
    requires IsGrid(grid) && InBounds(row, col) && grid[row][col] == 0 && !Placeable(grid, row, col, num)
    ensures forall s :: Completes(s, grid) ==> s[row][col] != num
  {
    forall s | Completes(s, grid) ensures s[row][col] != num {
      BlockedValueExcluded(grid, row, col, num, s);
    }
  }

  /** Once every digit is excluded at an empty cell, no completion exists. */
  lemma AllDigitsExcluded(grid: Grid, row: int, col: int, draws: seq<int>)
    requires InBounds(row, col) && Shuffle.ValidDraws(draws, 9)
    requires Excluded(grid, row, col, Shuffle.FisherYates(Numbers, draws))
    ensures forall s :: !Completes(s, grid)
  {
    forall s | Completes(s, grid) ensures false {
      assert IsDigit(s[row][col]);
      ShuffledNumbers(draws, s[row][col]);
    }
  }

  /** Writing 0 back into a cell that was 0 restores the board. */
  lemma UndoRestores(grid: Grid, row: int, col: int, num: int)
    requires IsGrid(grid) && InBounds(row, col) && grid[row][col] == 0
    ensures var placed := grid[row := grid[row][col := num]];
      placed[row := placed[row][col := 0]] == grid
  {
    var placed := grid[row := grid[row][col := num]];
    assert placed[row][col := 0] == grid[row];
  }

  /** `fillGrid`: `ok` says whether the search succeeded; on failure the board comes back
      unchanged, on success it is full; clues are never overwritten; the search succeeds
      whenever a completion exists, and on a consistent board success means the result
      completes it. */
  method FillGrid(grid: Grid, rng: nat -> seq<int>, calls: nat) returns (ok: bool, result: Grid, callsAfter: nat)
    requires IsGrid(grid) && ValidOracle(rng)
    ensures IsGrid(result) && calls <= callsAfter
    ensures KeepsClues(grid, result)
    ensures !ok ==> result == grid
    ensures ok ==> NoEmpty(result)
    ensures ok && Consistent(grid) ==> Completes(result, grid)
    ensures (exists s :: Completes(s, grid)) ==> ok
    decreases |EmptyCells(grid)|, 1
  {
    var first := FirstEmpty(grid);
    if first.None? {
      if Consistent(grid) {
        FullConsistentIsSolved(grid);
      }
      return true, grid, calls;
    }
    var (row, col) := first.value;
    var order := Shuffle.FisherYates(Numbers, rng(calls));
    ShuffledNumbers(rng(calls), 0);
    callsAfter := calls + 1;
    for i := 0 to 9
      invariant calls < callsAfter
      invariant Excluded(grid, row, col, order[..i])
    {
      var num := order[i];
      ShuffledNumbers(rng(calls), num);
      var found, filled, next := TryValue(grid, row, col, num, rng, callsAfter);
      callsAfter := next;
      if found {
        return true, filled, callsAfter;
      }
      ExcludedExtend(grid, row, col, order[..i], num);
      assert order[..i + 1] == order[..i] + [num];
    }
    assert order[..9] == order;
    AllDigitsExcluded(grid, row, col, rng(calls));
    return false, grid, callsAfter;
  }

  /** One pass of `for (let num of numbers)`: test the value, place it, search on, and
      write 0 back when the search fails. A failure excludes `num` from every completion. */
  method TryValue(grid: Grid, row: int, col: int, num: int, rng: nat -> seq<int>, calls: nat)
    returns (found: bool, filled: Grid, callsAfter: nat)
    requires IsGrid(grid) && InBounds(row, col) && grid[row][col] == 0 && IsDigit(num) && ValidOracle(rng)
    ensures IsGrid(filled) && calls <= callsAfter
    ensures found ==> KeepsClues(grid, filled) && NoEmpty(filled) && (Consistent(grid) ==> Completes(filled, grid))
    ensures !found ==> filled == grid && forall s :: Completes(s, grid) ==> s[row][col] != num
    decreases |EmptyCells(grid)|, 0
  {
    var placeable := IsValidPlacement(grid, row, col, num);
    if !placeable {
      BlockedExcluded(grid, row, col, num);
      return false, grid, calls;
    }
    var board := grid[row := grid[row][col := num]];
    PlacementShrinksEmpty(grid, row, col, num);
    found, filled, callsAfter := FillGrid(board, rng, calls);
    if found {
      FillGridSuccess(grid, row, col, num, filled);
      return;
    }
    RefutedValueExcluded(grid, row, col, num, board);
    UndoRestores(grid, row, col, num);
    filled := filled[row := filled[row][col := 0]];
  }

  /** What a successful recursive call tells about the board before the placement. */
  lemma FillGridSuccess(grid: Grid, row: int, col: int, num: int, filled: Grid)
    requires IsGrid(grid) && InBounds(row, col) && grid[row][col] == 0 && IsDigit(num)
    requires Placeable(grid, row, col, num)
    requires IsGrid(filled) && KeepsClues(grid[row := grid[row][col := num]], filled)
    requires Consistent(grid[row := grid[row][col := num]]) ==> Completes(filled, grid[row := grid[row][col := num]])
    ensures KeepsClues(grid, filled)
    ensures Consistent(grid) ==> Completes(filled, grid)
  {
    var g' := grid[row := grid[row][col := num]];
    forall r, c | 0 <= r < 9 && 0 <= c < 9 && grid[r][c] != 0 ensures filled[r][c] == grid[r][c] {
      assert g'[r][c] == grid[r][c];
    }
    if Consistent(grid) {
      PlacementKeepsNoConflicts(grid, row, col, num);
      assert Consistent(g');
      CompletionBeforePlacement(grid, row, col, num, filled);
    }
  }

  // ---------------------------------------------------------------------------
  // generateCompleteSudoku, createPuzzle, getDifficultyCells

  function EmptyGrid(): (g: Grid)
    ensures IsGrid(g) && Consistent(g)
  {
    seq(9, r => seq(9, c => 0))
  }

  /** The pattern board with identity orders completes the empty grid. */
  lemma EmptyGridSolvable()
    ensures exists s :: Completes(s, EmptyGrid())
  {
    var identity := seq(9, i => i);
    assert FormulaGenerator.BandPreserving(identity);
    FormulaGenerator.FormulaBoardSolved(identity, identity);
    SolvedCompletesEmpty(FormulaGenerator.FormulaBoard(identity, identity));
  }

  /** Any solved board completes the empty grid. */
  lemma SolvedCompletesEmpty(s: Grid)
    requires IsSolved(s)
    ensures Completes(s, EmptyGrid())
  {
  }

  /** `generateCompleteSudoku`: the search from the empty grid always yields a solved board. */
  method GenerateCompleteSudoku(rng: nat -> seq<int>) returns (solution: Grid, callsAfter: nat)
    requires ValidOracle(rng)
    ensures IsSolved(solution)
  {
    var ok;
    EmptyGridSolvable();
    ok, solution, callsAfter := FillGrid(EmptyGrid(), rng, 0);
  }

  /** `positions`: the 81 coordinates, row-major. */
  function AllPositions(): (ps: seq<(int, int)>)
    ensures |ps| == 81 && forall i :: 0 <= i < 81 ==> ps[i] == (i / 9, i % 9)
  {
    seq(81, i => (i / 9, i % 9))
  }

  lemma AllPositionsDistinct()
    ensures Shuffle.NoDuplicates(AllPositions())
  {
    var ps := AllPositions();
    forall i, j | 0 <= i < j < 81 ensures ps[i] != ps[j] {
      assert i == (i / 9) * 9 + i % 9 && j == (j / 9) * 9 + j % 9;
    }
  }

  /** How many cells the loop blanks: it stops after `cellsToRemove`, or at the end. */
  function Clamp(cellsToRemove: int): (n: int)
    ensures 0 <= n <= 81
  {
    if cellsToRemove < 0 then 0 else if cellsToRemove > 81 then 81 else cellsToRemove
  }

  /** The first `n` shuffled positions. */
  function Hidden(ps: seq<(int, int)>, n: int): set<(int, int)>
    requires 0 <= n <= |ps|
  {
    set i | 0 <= i < n :: ps[i]
  }

  lemma {:induction false} HiddenSize(ps: seq<(int, int)>, n: int)
    requires 0 <= n <= |ps| && Shuffle.NoDuplicates(ps)
    ensures |Hidden(ps, n)| == n
  {
    if n > 0 {
      HiddenSize(ps, n - 1);
      assert Hidden(ps, n) == Hidden(ps, n - 1) + {ps[n - 1]};
      assert ps[n - 1] !in Hidden(ps, n - 1);
    }
  }

  /** `createPuzzle`: exactly `Clamp(cellsToRemove)` distinct cells are blanked, chosen as
      the first positions of a shuffle; every other cell keeps the solution's value. */
  method CreatePuzzle(solution: Grid, cellsToRemove: int, positionDraws: seq<int>) returns (puzzle: Grid)
    requires IsGrid(solution) && Shuffle.ValidDraws(positionDraws, 81)
    ensures IsGrid(puzzle)
    ensures var hidden := Hidden(Shuffle.FisherYates(AllPositions(), positionDraws), Clamp(cellsToRemove));
      |hidden| == Clamp(cellsToRemove) &&
      (forall r, c | 0 <= r < 9 && 0 <= c < 9 :: puzzle[r][c] == if (r, c) in hidden then 0 else solution[r][c]) &&
      (NoEmpty(solution) ==> EmptyCells(puzzle) == hidden)
  {
    var positions := Shuffle.FisherYates(AllPositions(), positionDraws);
    ShuffledPositions(positionDraws);
    puzzle := solution;
    var removed := 0;
    for i := 0 to 81
      invariant IsGrid(puzzle) && removed == if i < Clamp(cellsToRemove) then i else Clamp(cellsToRemove)
      invariant forall r, c | 0 <= r < 9 && 0 <= c < 9 ::
        puzzle[r][c] == if (r, c) in Hidden(positions, removed) then 0 else solution[r][c]
    {
      if removed >= cellsToRemove {
        break;
      }
      var (row, col) := positions[i];
      puzzle := puzzle[row := puzzle[row][col := 0]];
      assert Hidden(positions, removed + 1) == Hidden(positions, removed) + {(row, col)};
      removed := removed + 1;
    }
    HiddenSize(positions, Clamp(cellsToRemove));
    if NoEmpty(solution) {
      BlankedCells(solution, puzzle, Hidden(positions, Clamp(cellsToRemove)));
    }
  }

  /** The shuffled positions are the 81 cells, each once. */
  lemma ShuffledPositions(positionDraws: seq<int>)
    requires Shuffle.ValidDraws(positionDraws, 81)
    ensures var ps := Shuffle.FisherYates(AllPositions(), positionDraws);
      |ps| == 81 && Shuffle.NoDuplicates(ps) && forall i :: 0 <= i < 81 ==> InBounds(ps[i].0, ps[i].1)
  {
    var positions := Shuffle.FisherYates(AllPositions(), positionDraws);
    AllPositionsDistinct();
    Shuffle.PermutationKeepsNoDuplicates(AllPositions(), positions);
    forall i | 0 <= i < 81 ensures InBounds(positions[i].0, positions[i].1) {
      assert positions[i] in multiset(positions);
      assert positions[i] in multiset(AllPositions());
    }
  }

  /** Blanking on-board cells of a board without blanks leaves exactly those cells empty. */
  lemma BlankedCells(solution: Grid, puzzle: Grid, hidden: set<(int, int)>)
    requires IsGrid(solution) && IsGrid(puzzle) && NoEmpty(solution)
    requires forall p :: p in hidden ==> InBounds(p.0, p.1)
    requires forall r, c | 0 <= r < 9 && 0 <= c < 9 :: puzzle[r][c] == if (r, c) in hidden then 0 else solution[r][c]
    ensures EmptyCells(puzzle) == hidden
  {
    forall p | p in hidden ensures p in EmptyCells(puzzle) {
      assert puzzle[p.0][p.1] == 0;
    }
  }

  /** `getDifficultyCells`: the table lookup with 40 as the fallback. */
  function GetDifficultyCells(difficulty: string): (n: int)
    ensures difficulty !in {"easy", "medium", "hard", "expert"} ==> n == 40
    ensures 40 <= n <= 65
  {
    if difficulty == "easy" then 40
    else if difficulty == "medium" then 50
    else if difficulty == "hard" then 60
    else if difficulty == "expert" then 65
    else 40
  }

  /** The harder the label, the more cells are blanked, and at least 16 clues remain. */
  lemma DifficultyOrdered()
    ensures GetDifficultyCells("easy") < GetDifficultyCells("medium") < GetDifficultyCells("hard") < GetDifficultyCells("expert")
    ensures forall d :: 81 - GetDifficultyCells(d) >= 16
  {
  }

  /** `onmessage` without timing: a solved board and a puzzle it completes, with exactly the
      label's number of blanks. */
  method GeneratePuzzle(difficulty: string, rng: nat -> seq<int>, positionDraws: seq<int>)
    returns (puzzle: Grid, solution: Grid, cellsRemoved: int)
    requires ValidOracle(rng) && Shuffle.ValidDraws(positionDraws, 81)
    ensures IsSolved(solution) && Completes(solution, puzzle)
    ensures cellsRemoved == GetDifficultyCells(difficulty) && |EmptyCells(puzzle)| == cellsRemoved
  {
    var calls;
    solution, calls := GenerateCompleteSudoku(rng);
    cellsRemoved := GetDifficultyCells(difficulty);
    puzzle := CreatePuzzle(solution, cellsRemoved, positionDraws);
  }
}
