# Sudoku com Threads — a Dafny model

This project models the validation and generation core of a browser Sudoku
application. The application checks a 9×9 board with one Web Worker per unit:
27 "threads", one for each row, column and 3×3 box. A worker reports whether
its unit holds each of the digits 1–9 exactly once. The board is valid when
no worker reports a failure. The repository has two front-ends, and both are
modelled:

- **js/main.js** is the "validator" page. Its workers run
  js/validator-worker.js. Thread planning, per-unit checks, and result
  analysis are modelled in `Controller` and `RegionValidator`.
- **script.js** is the "random challenge" page. Its workers run
  validatorWorker.js.
  - `FormulaGenerator` models the page's generation of a solved board and
    its masking.
  - `Partition` models the 27 payloads it builds, and the three payloads for
    a live edit.
  - `UnitValidator` models the worker's scan, with its `empty`, `invalid` and
    `duplicate` reports.
  - `ScriptFrontEnd` models the input sanitiser, the locked-cell set, the
    "fill incorrectly" helper and the aggregation of answers.
  - `Pipeline` models the message exchange between page and worker, both as
    written and with matching field names (see Findings).

js/generator-worker.js is modelled in `Backtracking`. It generates a solved
board by randomised backtracking, then blanks a difficulty-dependent number of
cells. `Shuffle` is the Fisher–Yates shuffle that both pages use. `Board` holds
the shared notions: grid, unit, peers, solved board, and "complete unit"
(a 9-sequence that is a permutation of 1..9).

Randomness becomes explicit parameters:
- Fisher–Yates takes a draw sequence with `0 <= draws[i] <= i`.
- `fillGrid` takes an oracle that yields one such sequence per shuffle call.
- The mask takes a 9×9 array of reals in place of the `Math.random()` values.

The worker round trip (`postMessage`, `onmessage`, `Promise.all`) becomes
function application over the list of requests.

## Model

| member | source | states |
|---|---|---|
| Shuffle.FisherYates | script.js:1-8 | the shuffled copy has the input's length and is a permutation of it (same multiset), for every admissible sequence of random draws |
| Shuffle.PermutationKeepsNoDuplicates | js/generator-worker.js:142-148 | shuffling a list without repeats gives a list without repeats (used for the 81 positions blanked by `createPuzzle`) |
| Backtracking.IsValidPlacement | js/generator-worker.js:109-137 | answers true exactly when `num` occurs nowhere in the cell's row, column or 3×3 box (the three scans together are the peer test) |
| Backtracking.PlacementKeepsNoConflicts | js/generator-worker.js:87-88 | placing a digit that passes `isValidPlacement` into a conflict-free board leaves it conflict-free |
| Backtracking.FillGrid | js/generator-worker.js:77-104 | the result keeps every prefilled cell; on failure the grid is restored unchanged; on success no cell is 0, and the result is a solution of a consistent start; and whenever some solution extends the start, the search succeeds (completeness of the backtracking) |
| Backtracking.TryValue | js/generator-worker.js:86-96 | one iteration of the candidate loop: either a completion is found, or the cell is reset to 0 and no solution of the board puts that digit there |
| Backtracking.AllDigitsExcluded | js/generator-worker.js:84-98 | when every digit of the shuffled `numbers` has been refuted for the first empty cell, the board has no solution, so `return false` is correct |
| Backtracking.UndoRestores | js/generator-worker.js:94 | resetting the cell to 0 after a failed recursive call gives back exactly the board before the placement |
| Backtracking.EmptyGridSolvable | js/generator-worker.js:61-72 | the all-zero start board has a solution, so `generateCompleteSudoku` never sees a failed fill |
| Backtracking.GenerateCompleteSudoku | js/generator-worker.js:61-65 | the generated board is a solved Sudoku: full, with digits 1–9, and no two peers equal |
| Backtracking.GetDifficultyCells | js/generator-worker.js:47-56 | every difficulty name outside the table gives 40, and every answer lies between 40 and 65 |
| Backtracking.DifficultyOrdered | js/generator-worker.js:48-53 | easy < medium < hard < expert in cells removed, and at least 16 clues always remain |
| Backtracking.CreatePuzzle | js/generator-worker.js:153-180 | the puzzle zeroes exactly the first `cellsToRemove` shuffled positions (clamped to 0..81), there are that many of them, all other cells equal the solution, and for a full solution the set of empty cells is exactly that set |
| Backtracking.GeneratePuzzle | js/generator-worker.js:11-34 | the posted solution is solved and completes the puzzle, and the puzzle has exactly `getDifficultyCells(difficulty)` empty cells |
| Board.SolvedIffUnitsComplete | js/main.js:327-330 | a board is solved (full, digits 1–9, no equal peers) exactly when each of its 9 rows, 9 columns and 9 boxes holds every digit once, which is the design premise behind "no invalid thread means a valid Sudoku" |
| Board.CompleteUnitIsPermutation | js/validator-worker.js:109-117 | a unit passes the range-and-repeat scan exactly when its values are a permutation of 1..9, the "contains every digit 1-9" the success message claims |
| Board.EveryDigitComplete | validatorWorker.js:36-38 | nine values that include every digit 1..9 form a complete unit (the `seen.size === 9` half of the strict verdict) |
| RegionValidator.ScanCells | js/validator-worker.js:78-107 | the scan either passes every cell, reporting the whole list, or stops at the first cell that is out of range or repeats an earlier one, reporting the values up to and including it and the matching message |
| RegionValidator.CleanIffComplete | js/validator-worker.js:82-107 | nine values pass the scan exactly when they form a complete unit |
| RegionValidator.ValidateColumn | js/validator-worker.js:74-118 | the column result is valid exactly when column `columnIndex` is a complete unit; the region label is "Coluna columnIndex+1"; an invalid result carries the values read up to the first failure and its reason |
| RegionValidator.ValidateRow | js/validator-worker.js:124-168 | the same as ValidateColumn, for row `rowIndex` and region "Linha rowIndex+1" |
| RegionValidator.ValidateSubgrid | js/validator-worker.js:174-221 | the same for the 3×3 block at (startRow, startCol), labelled with `getSubgridNumber` |
| RegionValidator.GetSubgridNumber | js/validator-worker.js:226-230 | for an in-grid start cell the label is the 1-based index of the box that contains it |
| RegionValidator.AlignedBlockIsBox | js/validator-worker.js:179-181 | the block scanned from a box's top-left corner is that box, in row-major order |
| RegionValidator.HandleMessage | js/validator-worker.js:12-68 | the answer echoes `threadId` and `type`; its status is COMPLETED exactly for the three known request types; otherwise it is ERROR, with an invalid result and the unknown-type message; for each known type, `valid` holds exactly when the addressed unit is complete |
| Controller.HandleCellInput | js/main.js:69-82 | the field ends up empty exactly when the text has no digit 1–9, and otherwise holds that first such digit alone |
| Controller.HandleCellInputIsFirstNonZeroDigit | js/main.js:69-82 | the filtered input is empty when the text has no digit 1–9, and otherwise is exactly the first such digit |
| Controller.InputFiltersCompared | js/main.js:74-78 | the two pages' filters agree whenever the script.js filter keeps a digit; they differ on "05" (script.js clears it, main.js keeps "5") |
| Controller.IsGridComplete | js/main.js:465-469 | true exactly when every cell holds a value between 1 and 9 |
| Controller.CreateAllConfigs | js/main.js:179-217 | 27 configurations with thread ids 0..26 and matching categories (9 columns, 9 rows, 9 subgrids); each request is well formed and targets a real unit, and every unit of the board is targeted |
| Controller.SubgridTarget | js/main.js:204-206 | the start cell computed for subgrid `s` is labelled `s + 1` by the worker's `getSubgridNumber` |
| Controller.StatusElementOfPlan | js/main.js:433-452 | each planned thread's status update addresses the element that `initializeThreadStatus` created for its own unit (prefix col/lin/sub, index 0..8) |
| Controller.PlanInjective | js/main.js:179-217 | no two threads check the same unit or light the same status element |
| Controller.AnalyzeResults | js/main.js:323-355 | valid + invalid counts add up to the number of results; the verdict is valid exactly when every result is valid; the invalid count is the number of invalid results |
| Controller.AnalysisOrderIndependent | js/main.js:276 | results that arrive in any completion order (the same multiset) give the same analysis |
| Controller.ValidateSudoku | js/main.js:137-174 | an incomplete grid is refused before any thread starts; otherwise the verdict is valid exactly when the grid is a solved Sudoku, the invalid count is the number of incomplete units, and all 27 threads report |
| Controller.PlanCoversUnits | js/main.js:179-217 | all 27 planned units are complete exactly when the board is solved |
| Controller.ResultMeaning | js/main.js:234-239 | the result a planned thread delivers is valid exactly when the unit the plan assigned to it is complete |
| Controller.InvalidAreIncomplete | js/main.js:328 | the threads reported invalid are exactly the planned units that are not complete |
| Controller.ValidExampleSolved | js/main.js:488-503 | the built-in valid example is a solved Sudoku |
| Controller.InvalidExampleFailsThreeUnits | js/main.js:508-523 | the invalid example differs from the valid one only in its last cell; it is full and unsolved; and exactly threads 8, 17 and 26 (last column, last row, last box) fail |
| Controller.ValidateExamples | js/main.js:488-523 | validating the two examples gives 27 valid / 0 invalid and 24 valid / 3 invalid respectively |
| FormulaGenerator.BandOrderPreserving | script.js:11-13 | the shuffled row (column) order is a permutation of 0..8 that keeps bands together: two positions in the same third map to the same third |
| FormulaGenerator.FormulaBoardSolved | script.js:14-24 | filling the board with `padrao(l, c) + 1` through two band-preserving orders gives a solved Sudoku |
| FormulaGenerator.PatternSeparates | script.js:16 | `padrao` gives different values to two distinct cells that share a row, a column or a box |
| FormulaGenerator.ConstruirTabuleiroResolvido | script.js:10-25 | every board built from any admissible random draws is solved |
| FormulaGenerator.MascararTabuleiro | script.js:27-37 | the mask only blanks: every cell of the result is 0 or the solution's value there |
| FormulaGenerator.MaskedBoardIsPuzzle | script.js:27-37 | the masked board is a puzzle the solution completes, and a cell is blanked exactly when its draw falls below the hidden proportion |
| FormulaGenerator.MaskExtremes | script.js:31 | proportion 0 blanks nothing, and proportion 1 blanks every cell |
| FormulaGenerator.GerarDesafioAleatorio | script.js:39-44 | the challenge's solution is solved and completes its clues |
| ScriptFrontEnd.ImporSimboloIsFirstDigit | script.js:120-129 | the sanitised text is empty when the input has no ASCII digit or its first digit is 0, and is that first digit otherwise |
| ScriptFrontEnd.ImporSimboloNumerico | script.js:120-129 | the field ends up empty or holding a single digit 1–9 |
| ScriptFrontEnd.ConstruirConjuntoBloqueado | script.js:444-454 | a pair is in the locked set exactly when it is an on-board cell whose value is not 0 |
| ScriptFrontEnd.BloqueadasAreKeptClues | script.js:444-454 | for a masked solved board, a cell is locked exactly when the mask kept its value |
| ScriptFrontEnd.ConstruirMatrizIncorreta | script.js:179-214 | the corrupted board is a 9×9 grid that agrees with the solution on every locked cell and differs from it in at most one cell |
| ScriptFrontEnd.MatrizIncorretaInvalid | script.js:179-214 | the "fill incorrectly" board is unsolved exactly when some cell is unlocked; when every cell is locked it is the solution unchanged |
| ScriptFrontEnd.MatrizIncorretaCopiesInRow | script.js:210-213 | in the first row with two unlocked columns, the second unlocked cell takes the value of the first, and every other cell keeps the solution's value |
| ScriptFrontEnd.LivresSpec | script.js:185-190 | `livres` lists exactly the unlocked columns of the row, in ascending order |
| ScriptFrontEnd.LinhaEscolhidaIsFirst | script.js:184-196 | the chosen row is the first row with at least two unlocked cells |
| ScriptFrontEnd.PrimeiraLivre | script.js:199-206 | the fallback scan, from row-major position `k`, returns an unlocked on-board cell with every earlier position from `k` locked, or nothing when all remaining cells are locked |
| ScriptFrontEnd.MatrizIncorretaClearsFirstFree | script.js:198-207 | when no row has two unlocked cells, the board blanks exactly the first unlocked cell in row-major order and copies every other cell of the solution |
| ScriptFrontEnd.Agregar | script.js:324-333 | `todasValidas` holds exactly when every answer is valid, and the problem list concatenates the invalid answers' positions |
| ScriptFrontEnd.ProblemasMembership | script.js:327-332 | a position is listed exactly when some invalid answer reports it |
| Partition.ConstruirCargas | script.js:247-273 | 27 payloads of nine cells each, labelled `linha` 0–8, then `coluna` 0–8, then `bloco` 0–8 |
| Partition.CargaMeaning | script.js:247-273 | payloads 0–8 are rows, 9–17 columns and 18–26 blocks, in order; each carries its unit's nine cells with their coordinates and the board's values |
| Partition.CellCoveredThreeTimes | script.js:247-273 | every cell appears in exactly three payloads: its row's, its column's and its block's |
| Partition.ConstruirCargasParaCelula | script.js:275-296 | three payloads of nine cells: the edited cell's row, column and block (indexed by the box that holds the cell), each containing that cell with its board value |
| Partition.ParaCelulaMatchesFull | script.js:275-296 | the live-edit payloads are the full check's row, column and block payloads for the edited cell, and each contains that cell |
| UnitValidator.ValidateUnit | validatorWorker.js:1-40 | the answer echoes `kind` and `index` and lists the scan's reports; without `ignoreEmpty` it is valid exactly when there are nine cells whose values are a permutation of 1..9, with `ignoreEmpty` exactly when no value is an out-of-range integer and no digit repeats (blanks allowed) |
| UnitValidator.StrictScanIffPermutation | validatorWorker.js:36-38 | an empty report list together with nine distinct values seen happens exactly for nine cells holding 1..9 once each |
| UnitValidator.NoEntriesIff | validatorWorker.js:7-34 | nothing is reported exactly when no cell is out of range, no digit repeats, and (unless empties are ignored) no cell is blank or non-integer |
| UnitValidator.ClassEntriesExact | validatorWorker.js:11-21 | the `empty` and `invalid` reports are exactly the blank (when not ignored) and out-of-range cells, in payload order |
| UnitValidator.SeenInvariant | validatorWorker.js:23-33 | `seen` maps exactly the digits that occur to the position of their first occurrence |
| UnitValidator.RegistryInvariant | validatorWorker.js:24-29 | a first occurrence is in the duplicate registry exactly when its digit occurs at least twice |
| UnitValidator.DuplicatesReported | validatorWorker.js:23-30 | for payloads with distinct coordinates, every cell whose digit repeats is reported `duplicate` exactly once, and no other cell is |
| UnitValidator.TripleFiveExample | validatorWorker.js:23-30 | a row starting 5, 5, 5 reports the first cell once and each later copy once |
| UnitValidator.SecondOccurrenceEntries | validatorWorker.js:23-30 | when a cell repeats a digit seen exactly once before, the scan appends two `duplicate` reports: the first occurrence's position, then this cell's |
| UnitValidator.LaterOccurrenceEntries | validatorWorker.js:23-30 | when a cell repeats a digit that already occurred at least twice, the scan appends only this cell's `duplicate` report |
| Pipeline.ValidarTabuleiroComoEscrito | script.js:298-346 | as written, every full-board run ends in the catch branch ("Erro ao executar as threads de validacao") |
| Pipeline.AsWrittenAlwaysErrors | script.js:252 | none of the 27 posted payloads carries the `cells` property the worker reads, so `Promise.all` rejects |
| Pipeline.AsWrittenLiveEditErrors | script.js:355 | the same for the three live-edit payloads, even with `ignorarVazios` added |
| Pipeline.ValidarTabuleiro | script.js:314-346 | with matching field names the verdict is "all valid" exactly when the board is solved, and the highlighted cells are exactly those reported by invalid answers |
| Pipeline.VerdictIffSolved | script.js:319-333 | all 27 answers are valid exactly when the board is solved |
| Pipeline.RespostaMeaning | script.js:298-312 | answer `k` is valid exactly when unit `k` (row, column or block) is complete |
| Pipeline.ValidarCelula | script.js:348-366 | with matching field names, the live edit highlights exactly the cells in the edited cell's row, column or block whose digit repeats in that unit |
| Pipeline.DuplicadasAreDuplicatePositions | script.js:360 | filtering answers on `"duplicada"` keeps exactly the positions the worker flagged as duplicates |

## Left out

- DOM rendering, logs, timers, `performance.now()` timings and the `setTimeout`
  delay before a worker posts its answer are not modelled. They do not affect any
  verdict.
- Concurrency is not modelled. The 27 workers are applied one after another, and
  `Promise.all` becomes "every answer, or a rejection". The order in which
  answers arrive affects only the order of `this.results`, and
  `Controller.AnalysisOrderIndependent` shows the analysis does not depend on it.
  `waitForAllWorkers` polls until 27 threads have completed; that is modelled
  only as "all 27 results are present".
- The distribution of `Math.random()` is not modelled. Every result holds for
  every admissible sequence of draws, not just for likely ones. The challenge
  stamp `Math.floor(Math.random() * 10000)` in `gerarDesafioAleatorio` is a
  label, and it is left out.
- Reading the board from the page (`readGridFromUI`, `coletarMatrizDoTabuleiro`)
  and writing it back are not modelled. The models take the resulting 9×9
  integer grid as input.
- The generator worker's header promises a unique solution. The code never
  checks uniqueness, and the model does not claim it.
- Backtracking.GetDifficultyCells: a name such as "constructor", which
  resolves through the object's prototype, is treated like any unknown name
  (40). In JavaScript it yields an inherited function.
- RegionValidator.HandleMessage: requires in-range indices in `data`. The
  source never sends others (`Controller.CreateAllConfigs` proves every
  planned request is well formed), and an out-of-range index would read
  `undefined` from the grid. Unset `data` fields are modelled as 0.
- UnitValidator.ValidateUnit: `Number(cell.value)` is modelled as either an
  integer or `NonInteger`. NaN, fractions and infinities all take the "empty"
  branch, as `Number.isInteger` fails for each of them. The textual form of
  the value is not modelled.
- The full-board and live-edit checks of script.js also disagree with the
  worker on the answer's names. The page reads `valido`, `posicoesInvalidas`
  and issue `"duplicada"`; the worker answers `valid`, `invalidPositions`
  and `"duplicate"`. As written this mismatch is never reached, because the
  request mismatch below rejects every run first. `Pipeline.ParaResultado`
  renames the answer fields in the corrected exchange.
- The thread-log entries (`registrarResultadoThread`) and the cell titles of
  `destacarCelulasInvalidas` are display only.
- The worker `onerror` handlers and the error branch of `createWorker` are not
  modelled separately. A well-formed planned request always answers
  COMPLETED (`RegionValidator.HandleMessage`).

## Findings

| source | as written | input that shows it | evidently intended | confidence | as-written member | corrected member |
|---|---|---|---|---|---|---|
| script.js:252 | the page posts `{ tipo, indice, celulas }` (cells named `linha`, `coluna`, `valor`); validatorWorker.js:2 destructures `{ kind, index, cells, ignoreEmpty }`, so `cells` is undefined, `cells.forEach` throws, and every full-board check and live edit ends in the error banner | any board, e.g. the solved board of a fresh challenge after "fill correctly" | page and worker use the same field names, so that a solved board is confirmed and repeated digits are highlighted | not executed | Pipeline.ValidarTabuleiroComoEscrito | Pipeline.ValidarTabuleiro |
