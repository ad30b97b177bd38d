/**
  The validator page's controller (js/main.js, class `SudokuValidator`): the
  input filter of a cell, the "grid complete" gate, the plan of 27 threads
  (9 columns, 9 rows, 9 subgrids), the decoding of a thread to its status
  element, the analysis of the returned results, and the two example boards.
  A validation run is modelled sequentially: each planned request goes
  through the worker's message handler and the results are analysed.
 */
module Controller {
  import opened Board
  import opened Wrappers
  import RegionValidator
  import ScriptFrontEnd

  // ---------------------------------------------------------------------------
  // handleCellInput

  predicate IsNonZeroDigit(ch: char) {
    '1' <= ch <= '9'
  }

  /** `value.replace(/[^1-9]/g, '')`. */
  function KeepNonZeroDigits(s: string): (r: string)
    ensures |r| <= |s| && forall i :: 0 <= i < |r| ==> IsNonZeroDigit(r[i])
    decreases |s|
  {
    if s == [] then []
    else
      var rest := KeepNonZeroDigits(s[..|s| - 1]);
      if IsNonZeroDigit(s[|s| - 1]) then rest + [s[|s| - 1]] else rest
  }

  /** `handleCellInput`: keep the characters 1-9, then only the first. */
  function HandleCellInput(s: string): (r: string)
    ensures r == [] || (|r| == 1 && IsNonZeroDigit(r[0]))
    ensures r == [] <==> FirstNonZeroDigit(s).None?
    ensures r != [] ==> r[0] == FirstNonZeroDigit(s).value
  {
    KeepNonZeroDigitsFirst(s);
    var value := KeepNonZeroDigits(s);
    if |value| > 1 then [value[0]] else value
  }

  /** The first character 1-9 of `s`, scanning from the left. */
  function FirstNonZeroDigit(s: string): (d: Option<char>)
    ensures d.Some? ==> IsNonZeroDigit(d.value) && d.value in s
    ensures d.None? ==> forall i :: 0 <= i < |s| ==> !IsNonZeroDigit(s[i])
    decreases |s|
  {
    if s == [] then None
    else if IsNonZeroDigit(s[0]) then Some(s[0])
    else FirstNonZeroDigit(s[1..])
  }

  /** The filter keeps the non-zero digits in order, so its first character is the first
      non-zero digit. */
  lemma {:induction false} KeepNonZeroDigitsFirst(s: string)
    ensures FirstNonZeroDigit(s).None? <==> KeepNonZeroDigits(s) == []
    ensures FirstNonZeroDigit(s).Some? ==> KeepNonZeroDigits(s)[0] == FirstNonZeroDigit(s).value
    decreases |s|
  {
    if s != [] {
      var w := s[..|s| - 1];
      KeepNonZeroDigitsFirst(w);
      if FirstNonZeroDigit(w).Some? {
        FirstOfPrefix(s);
      } else if IsNonZeroDigit(s[|s| - 1]) {
        FirstIsLast(s);
      } else {
        assert forall i :: 0 <= i < |s| - 1 ==> s[i] == w[i];
        NoneWithout(s);
      }
    }
  }

  lemma {:induction false} FirstOfPrefix(s: string)
    requires s != [] && FirstNonZeroDigit(s[..|s| - 1]).Some?
    ensures FirstNonZeroDigit(s) == FirstNonZeroDigit(s[..|s| - 1])
    decreases |s|
  {
    if !IsNonZeroDigit(s[0]) {
      assert s[1..][..|s[1..]| - 1] == s[..|s| - 1][1..];
      FirstOfPrefix(s[1..]);
    }
  }

  lemma {:induction false} FirstIsLast(s: string)
    requires s != [] && FirstNonZeroDigit(s[..|s| - 1]).None? && IsNonZeroDigit(s[|s| - 1])
    ensures FirstNonZeroDigit(s) == Some(s[|s| - 1])
    decreases |s|
  {
    if |s| > 1 {
      assert !IsNonZeroDigit(s[..|s| - 1][0]);
      assert s[1..][..|s[1..]| - 1] == s[..|s| - 1][1..];
      FirstIsLast(s[1..]);
    }
  }

  lemma {:induction false} NoneWithout(s: string)
    requires forall i :: 0 <= i < |s| ==> !IsNonZeroDigit(s[i])
    ensures FirstNonZeroDigit(s).None?
    decreases |s|
  {
    if s != [] {
      NoneWithout(s[1..]);
    }
  }

  /** The cell keeps the first character 1-9 typed, or is cleared when there is none. */
  lemma HandleCellInputIsFirstNonZeroDigit(s: string)
    ensures HandleCellInput(s) == match FirstNonZeroDigit(s) case None => "" case Some(d) => [d]
  {
    KeepNonZeroDigitsFirst(s);
  }

  /** When the first ASCII digit is not '0', it is also the first non-zero digit. */
  lemma {:induction false} FirstDigitAgrees(s: string)
    requires ScriptFrontEnd.FirstAsciiDigit(s).Some? && ScriptFrontEnd.FirstAsciiDigit(s).value != '0'
    ensures FirstNonZeroDigit(s) == ScriptFrontEnd.FirstAsciiDigit(s)
    decreases |s|
  {
    if !ScriptFrontEnd.IsAsciiDigit(s[0]) {
      FirstDigitAgrees(s[1..]);
    }
  }

  /** The two pages' filters agree whenever the single-page one keeps a symbol; they part
      when the first digit typed is '0': "05" is cleared there and becomes "5" here. */
  lemma InputFiltersCompared(s: string)
    ensures ScriptFrontEnd.ImporSimboloNumerico(s) != "" ==> ScriptFrontEnd.ImporSimboloNumerico(s) == HandleCellInput(s)
    ensures ScriptFrontEnd.ImporSimboloNumerico("05") == "" && HandleCellInput("05") == "5"
  {
    ScriptFrontEnd.ImporSimboloIsFirstDigit(s);
    HandleCellInputIsFirstNonZeroDigit(s);
    if ScriptFrontEnd.ImporSimboloNumerico(s) != "" {
      FirstDigitAgrees(s);
    }
    ScriptFrontEnd.ImporSimboloIsFirstDigit("05");
    HandleCellInputIsFirstNonZeroDigit("05");
    assert ScriptFrontEnd.FirstAsciiDigit("05") == Some('0');
    assert FirstNonZeroDigit("05") == Some('5') by {
      assert "05"[1..] == "5";
    }
  }

  // ---------------------------------------------------------------------------
  // isGridComplete

  /** `isGridComplete`: every row has every cell in 1..9 (`every` stops at the first miss). */
  method IsGridComplete(grid: Grid) returns (complete: bool)
    requires IsGrid(grid)
    ensures complete <==> IsFull(grid)
  {
    for r := 0 to 9
      invariant forall i, c | 0 <= i < r && 0 <= c < 9 :: IsDigit(grid[i][c])
    {
      for c := 0 to 9
        invariant forall j | 0 <= j < c :: IsDigit(grid[r][j])
      {
        if !(grid[r][c] >= 1 && grid[r][c] <= 9) {
          return false;
        }
      }
    }
    return true;
  }

  // ---------------------------------------------------------------------------
  // The thread plan (createAllWorkers) and the status decoding (updateThreadStatus).

  const TotalThreads := 27

  /** `{ type, data, threadId, category }`. Fields a request type does not set are 0. */
  datatype ThreadConfig = ThreadConfig(kind: string, data: RegionValidator.TaskData, threadId: int, category: string)

  /** A unit of the board. */
  datatype UnitRef = ColumnUnit(j: int) | RowUnit(i: int) | BoxUnit(b: int)

  predicate ValidUnit(u: UnitRef) {
    match u
    case ColumnUnit(j) => 0 <= j < 9
    case RowUnit(i) => 0 <= i < 9
    case BoxUnit(b) => 0 <= b < 9
  }

  /** The values of a unit. */
  function UnitValues(g: Grid, u: UnitRef): seq<int>
    requires IsGrid(g) && ValidUnit(u)
  {
    match u
    case ColumnUnit(j) => Column(g, j)
    case RowUnit(i) => Row(g, i)
    case BoxUnit(b) => Box(g, b)
  }

  /** The unit a configuration asks its worker to check. */
  function Target(config: ThreadConfig): Option<UnitRef> {
    if config.kind == RegionValidator.ValidateColumnType then Some(ColumnUnit(config.data.columnIndex))
    else if config.kind == RegionValidator.ValidateRowType then Some(RowUnit(config.data.rowIndex))
    else if config.kind == RegionValidator.ValidateSubgridType then
      Some(BoxUnit(RegionValidator.GetSubgridNumber(config.data.startRow, config.data.startCol) - 1))
    else None
  }

  /** The category string matches the request type. */
  predicate CategoryMatches(config: ThreadConfig) {
    (config.kind == RegionValidator.ValidateColumnType ==> config.category == "column") &&
    (config.kind == RegionValidator.ValidateRowType ==> config.category == "row") &&
    (config.kind == RegionValidator.ValidateSubgridType ==> config.category == "subgrid")
  }

  /** The request this configuration posts: its `type`, `data`, `threadId` and the grid. */
  function RequestOf(config: ThreadConfig, grid: Grid): RegionValidator.Request {
    RegionValidator.Request(config.kind, config.data, config.threadId, grid)
  }

  /** `createAllWorkers`: columns, then rows, then subgrids, numbered by one counter. */
  method CreateAllConfigs() returns (configs: seq<ThreadConfig>)
    ensures |configs| == TotalThreads
    ensures forall k :: 0 <= k < |configs| ==> configs[k] == PlannedConfig(k)
    ensures forall k :: 0 <= k < |configs| ==> configs[k].threadId == k && CategoryMatches(configs[k])
    ensures forall k :: 0 <= k < |configs| ==> Target(configs[k]).Some? && ValidUnit(Target(configs[k]).value)
    ensures forall k, g :: 0 <= k < |configs| && IsGrid(g) ==> RegionValidator.WellFormed(RequestOf(configs[k], g))
    ensures forall u :: ValidUnit(u) ==> exists k :: 0 <= k < |configs| && Target(configs[k]) == Some(u)
  {
    configs := [];
    var threadId := 0;
    for col := 0 to 9
      invariant threadId == |configs| == col
      invariant forall k :: 0 <= k < |configs| ==> configs[k] == ColumnConfig(k, k)
    {
      configs := configs + [ColumnConfig(col, threadId)];
      threadId := threadId + 1;
    }
    for row := 0 to 9
      invariant threadId == |configs| == 9 + row
      invariant forall k :: 0 <= k < 9 ==> configs[k] == ColumnConfig(k, k)
      invariant forall k :: 9 <= k < |configs| ==> configs[k] == RowConfig(k - 9, k)
    {
      configs := configs + [RowConfig(row, threadId)];
      threadId := threadId + 1;
    }
    for subgrid := 0 to 9
      invariant threadId == |configs| == 18 + subgrid
      invariant forall k :: 0 <= k < 9 ==> configs[k] == ColumnConfig(k, k)
      invariant forall k :: 9 <= k < 18 ==> configs[k] == RowConfig(k - 9, k)
      invariant forall k :: 18 <= k < |configs| ==> configs[k] == SubgridConfig(k - 18, k)
    {
      configs := configs + [SubgridConfig(subgrid, threadId)];
      threadId := threadId + 1;
    }
    KindsDistinct();
    forall k | 0 <= k < |configs|
      ensures Target(configs[k]) == Some(PlannedUnit(k))
    {
      if k >= 18 {
        SubgridTarget(k - 18);
      }
    }
    forall u | ValidUnit(u)
      ensures exists k :: 0 <= k < |configs| && Target(configs[k]) == Some(u)
    {
      var k := PlanIndex(u);
      assert Target(configs[k]) == Some(u);
    }
  }

  function ColumnConfig(col: int, threadId: int): ThreadConfig {
    ThreadConfig(RegionValidator.ValidateColumnType, RegionValidator.TaskData(col, 0, 0, 0), threadId, "column")
  }

  function RowConfig(row: int, threadId: int): ThreadConfig {
    ThreadConfig(RegionValidator.ValidateRowType, RegionValidator.TaskData(0, row, 0, 0), threadId, "row")
  }

  /** `startRow = Math.floor(subgrid / 3) * 3`, `startCol = (subgrid % 3) * 3`. */
  function SubgridConfig(subgrid: int, threadId: int): ThreadConfig {
    ThreadConfig(RegionValidator.ValidateSubgridType,
      RegionValidator.TaskData(0, 0, (subgrid / 3) * 3, (subgrid % 3) * 3), threadId, "subgrid")
  }

  /** Thread `k` of the plan, as `createAllWorkers` builds it. */
  function PlannedConfig(k: int): ThreadConfig {
    if k < 9 then ColumnConfig(k, k) else if k < 18 then RowConfig(k - 9, k) else SubgridConfig(k - 18, k)
  }

  /** The three request types are different strings. */
  lemma KindsDistinct()
    ensures RegionValidator.ValidateColumnType != RegionValidator.ValidateRowType
    ensures RegionValidator.ValidateColumnType != RegionValidator.ValidateSubgridType
    ensures RegionValidator.ValidateRowType != RegionValidator.ValidateSubgridType
  {
    assert RegionValidator.ValidateColumnType[9] == 'C';
    assert RegionValidator.ValidateRowType[9] == 'R';
    assert RegionValidator.ValidateSubgridType[9] == 'S';
  }

  /** The unit thread `k` checks, by construction order. */
  function PlannedUnit(k: int): UnitRef {
    if k < 9 then ColumnUnit(k) else if k < 18 then RowUnit(k - 9) else BoxUnit(k - 18)
  }

  /** The thread that checks `u`. */
  function PlanIndex(u: UnitRef): (k: int)
    requires ValidUnit(u)
    ensures 0 <= k < TotalThreads && PlannedUnit(k) == u
  {
    match u
    case ColumnUnit(j) => j
    case RowUnit(i) => 9 + i
    case BoxUnit(b) => 18 + b
  }

  /** The subgrid thread for block `s` reports subgrid number s + 1. */
  lemma SubgridTarget(s: int)
    requires 0 <= s < 9
    ensures RegionValidator.GetSubgridNumber((s / 3) * 3, (s % 3) * 3) == s + 1
  {
    var q, m := s / 3, s % 3;
    assert (q * 3) / 3 == q by {
      if q == 0 {} else if q == 1 {} else {}
    }
    assert (m * 3) / 3 == m by {
      if m == 0 {} else if m == 1 {} else {}
    }
  }

  /** `updateThreadStatus`: the element id's prefix and index for a thread. */
  function StatusElement(threadId: int, category: string): (string, int) {
    if category == "column" then ("col", threadId)
    else if category == "row" then ("lin", threadId - 9)
    else if category == "subgrid" then ("sub", threadId - 18)
    else ("", 0)
  }

  /** The status element prefix of a unit's group, as `initializeThreadStatus` names it. */
  function GroupPrefix(u: UnitRef): string {
    match u
    case ColumnUnit(_) => "col"
    case RowUnit(_) => "lin"
    case BoxUnit(_) => "sub"
  }

  function GroupIndex(u: UnitRef): int {
    match u
    case ColumnUnit(j) => j
    case RowUnit(i) => i
    case BoxUnit(b) => b
  }

  /** Each planned thread lights the element `thread-<prefix>-<i>` that
      `initializeThreadStatus` created for its own unit (i in 0..8), so no two threads
      share an element. */
  lemma StatusElementOfPlan(k: int)
    requires 0 <= k < TotalThreads
    ensures var config := PlannedConfig(k);
      StatusElement(config.threadId, config.category) == (GroupPrefix(PlannedUnit(k)), GroupIndex(PlannedUnit(k))) &&
      0 <= GroupIndex(PlannedUnit(k)) < 9
  {
  }

  /** Distinct threads of the plan check distinct units. */
  lemma PlanInjective(k1: int, k2: int)
    requires 0 <= k1 < TotalThreads && 0 <= k2 < TotalThreads && k1 != k2
    ensures PlannedUnit(k1) != PlannedUnit(k2)
    ensures (GroupPrefix(PlannedUnit(k1)), GroupIndex(PlannedUnit(k1))) != (GroupPrefix(PlannedUnit(k2)), GroupIndex(PlannedUnit(k2)))
  {
  }

  // ---------------------------------------------------------------------------
  // analyzeResults

  datatype Analysis = Analysis(isValid: bool, validCount: nat, invalidCount: nat)

  /** `this.results.filter(r => r.valid)`. */
  function ValidResults(rs: seq<RegionValidator.RegionResult>): seq<RegionValidator.RegionResult>
    decreases |rs|
  {
    if rs == [] then []
    else ValidResults(rs[..|rs| - 1]) + (if rs[|rs| - 1].valid then [rs[|rs| - 1]] else [])
  }

  /** `this.results.filter(r => !r.valid)`. */
  function InvalidResults(rs: seq<RegionValidator.RegionResult>): seq<RegionValidator.RegionResult>
    decreases |rs|
  {
    if rs == [] then []
    else InvalidResults(rs[..|rs| - 1]) + (if rs[|rs| - 1].valid then [] else [rs[|rs| - 1]])
  }

  /** `analyzeResults`: the board is valid when no result is invalid. */
  function AnalyzeResults(rs: seq<RegionValidator.RegionResult>): (a: Analysis)
    ensures a.validCount + a.invalidCount == |rs|
    ensures a.isValid <==> forall i :: 0 <= i < |rs| ==> rs[i].valid
    ensures a.invalidCount == |set i | 0 <= i < |rs| && !rs[i].valid|
  {
    FilterCounts(rs);
    Analysis(|InvalidResults(rs)| == 0, |ValidResults(rs)|, |InvalidResults(rs)|)
  }

  lemma {:induction false} FilterCounts(rs: seq<RegionValidator.RegionResult>)
    ensures |ValidResults(rs)| + |InvalidResults(rs)| == |rs|
    ensures |InvalidResults(rs)| == |set i | 0 <= i < |rs| && !rs[i].valid|
    ensures |InvalidResults(rs)| == 0 <==> forall i :: 0 <= i < |rs| ==> rs[i].valid
    decreases |rs|
  {
    if rs != [] {
      var n := |rs| - 1;
      var w := rs[..n];
      FilterCounts(w);
      var before := set i | 0 <= i < n && !w[i].valid;
      var after := set i | 0 <= i < |rs| && !rs[i].valid;
      if rs[n].valid {
        assert after == before;
      } else {
        assert after == before + {n};
      }
    }
  }

  /** How many results of each verdict a result sequence holds, as a multiset. */
  lemma InvalidMultiset(rs: seq<RegionValidator.RegionResult>, x: RegionValidator.RegionResult)
    ensures multiset(InvalidResults(rs))[x] == if x.valid then 0 else multiset(rs)[x]
    ensures multiset(ValidResults(rs))[x] == if x.valid then multiset(rs)[x] else 0
  {
    InvalidCount(rs, x);
    ValidCount(rs, x);
  }

  lemma {:induction false} InvalidCount(rs: seq<RegionValidator.RegionResult>, x: RegionValidator.RegionResult)
    ensures multiset(InvalidResults(rs))[x] == if x.valid then 0 else multiset(rs)[x]
    decreases |rs|
  {
    if rs != [] {
      var n := |rs| - 1;
      InvalidCount(rs[..n], x);
      assert rs == rs[..n] + [rs[n]];
    }
  }

  lemma {:induction false} ValidCount(rs: seq<RegionValidator.RegionResult>, x: RegionValidator.RegionResult)
    ensures multiset(ValidResults(rs))[x] == if x.valid then multiset(rs)[x] else 0
    decreases |rs|
  {
    if rs != [] {
      var n := |rs| - 1;
      ValidCount(rs[..n], x);
      assert rs == rs[..n] + [rs[n]];
    }
  }

  /** Threads finish in any order; the analysis does not depend on it. */
  lemma AnalysisOrderIndependent(a: seq<RegionValidator.RegionResult>, b: seq<RegionValidator.RegionResult>)
    requires multiset(a) == multiset(b)
    ensures AnalyzeResults(a) == AnalyzeResults(b)
  {
    forall x
      ensures multiset(InvalidResults(a))[x] == multiset(InvalidResults(b))[x]
      ensures multiset(ValidResults(a))[x] == multiset(ValidResults(b))[x]
    {
      InvalidMultiset(a, x);
      InvalidMultiset(b, x);
    }
    assert multiset(InvalidResults(a)) == multiset(InvalidResults(b));
    assert multiset(ValidResults(a)) == multiset(ValidResults(b));
    assert |InvalidResults(a)| == |multiset(InvalidResults(a))|;
    assert |ValidResults(a)| == |multiset(ValidResults(a))|;
  }

  // ---------------------------------------------------------------------------
  // validateSudoku

  datatype Outcome = Incomplete | Finished(analysis: Analysis)

  /** The number of board units that do not hold each digit once. */
  function IncompleteUnits(g: Grid): set<int>
    requires IsGrid(g)
  {
    set k | 0 <= k < TotalThreads && !IsCompleteUnit(UnitValues(g, PlannedUnit(k)))
  }

  /** `validateSudoku`: refuse an incomplete grid; otherwise run the 27 planned requests
      through the worker's handler and analyse the results. */
  method ValidateSudoku(grid: Grid) returns (outcome: Outcome)
    requires IsGrid(grid)
    ensures outcome.Incomplete? <==> !IsFull(grid)
    ensures outcome.Finished? ==> (outcome.analysis.isValid <==> IsSolved(grid))
    ensures outcome.Finished? ==> outcome.analysis.invalidCount == |IncompleteUnits(grid)|
    ensures outcome.Finished? ==> outcome.analysis.validCount + outcome.analysis.invalidCount == TotalThreads
  {
    var complete := IsGridComplete(grid);
    if !complete {
      return Incomplete;
    }
    var results := RunThreads(grid);
    outcome := Finished(AnalyzeResults(results));
    AnalysisOfRun(grid, results);
  }

  /** The 27 planned requests sent through the worker's handler, one result each. */
  method RunThreads(grid: Grid) returns (results: seq<RegionValidator.RegionResult>)
    requires IsGrid(grid)
    ensures |results| == TotalThreads
    ensures forall j :: 0 <= j < TotalThreads ==> (results[j].valid <==> IsCompleteUnit(UnitValues(grid, PlannedUnit(j))))
  {
    var configs := CreateAllConfigs();
    results := [];
    for k := 0 to TotalThreads
      invariant |results| == k
      invariant forall j :: 0 <= j < k ==> (results[j].valid <==> IsCompleteUnit(UnitValues(grid, PlannedUnit(j))))
    {
      var res := RunThread(grid, k, configs[k]);
      results := results + [res];
    }
  }

  /** One worker thread answering planned request `k`. */
  method RunThread(grid: Grid, k: int, config: ThreadConfig) returns (res: RegionValidator.RegionResult)
    requires IsGrid(grid) && 0 <= k < TotalThreads && config == PlannedConfig(k)
    ensures res.valid <==> IsCompleteUnit(UnitValues(grid, PlannedUnit(k)))
  {
    var resp := RegionValidator.HandleMessage(RequestOf(config, grid));
    ResultMeaning(k, grid, resp.result);
    res := resp.result;
  }

  /** What the analysis of a full run says about the board. */
  lemma AnalysisOfRun(grid: Grid, results: seq<RegionValidator.RegionResult>)
    requires IsGrid(grid) && |results| == TotalThreads
    requires forall j :: 0 <= j < TotalThreads ==> (results[j].valid <==> IsCompleteUnit(UnitValues(grid, PlannedUnit(j))))
    ensures var a := AnalyzeResults(results);
      (a.isValid <==> IsSolved(grid)) && a.invalidCount == |IncompleteUnits(grid)| &&
      a.validCount + a.invalidCount == TotalThreads
  {
    InvalidAreIncomplete(grid, results);
    PlanCoversUnits(grid);
  }

  lemma InvalidAreIncomplete(grid: Grid, results: seq<RegionValidator.RegionResult>)
    requires IsGrid(grid) && |results| == TotalThreads
    requires forall j :: 0 <= j < TotalThreads ==> (results[j].valid <==> IsCompleteUnit(UnitValues(grid, PlannedUnit(j))))
    ensures (set i | 0 <= i < |results| && !results[i].valid) == IncompleteUnits(grid)
  {
  }

  /** Every unit complete, counted over the plan, is the solved board. */
  lemma PlanCoversUnits(g: Grid)
    requires IsGrid(g)
    ensures (forall k :: 0 <= k < TotalThreads ==> IsCompleteUnit(UnitValues(g, PlannedUnit(k)))) <==> IsSolved(g)
  {
    SolvedIffUnitsComplete(g);
    if forall k :: 0 <= k < TotalThreads ==> IsCompleteUnit(UnitValues(g, PlannedUnit(k))) {
      forall i | 0 <= i < 9
        ensures IsCompleteUnit(Row(g, i)) && IsCompleteUnit(Column(g, i)) && IsCompleteUnit(Box(g, i))
      {
        assert UnitValues(g, PlannedUnit(i)) == Column(g, i);
        assert UnitValues(g, PlannedUnit(9 + i)) == Row(g, i);
        assert UnitValues(g, PlannedUnit(18 + i)) == Box(g, i);
      }
    }
  }

  /** The answer to planned request `k` is valid exactly when its unit is complete. */
  lemma ResultMeaning(k: int, grid: Grid, res: RegionValidator.RegionResult)
    requires IsGrid(grid) && 0 <= k < TotalThreads
    requires var req := RequestOf(PlannedConfig(k), grid);
      (req.kind == RegionValidator.ValidateColumnType ==> res.valid == IsCompleteUnit(Column(grid, req.data.columnIndex))) &&
      (req.kind == RegionValidator.ValidateRowType ==> res.valid == IsCompleteUnit(Row(grid, req.data.rowIndex))) &&
      (req.kind == RegionValidator.ValidateSubgridType ==>
        res.valid == IsCompleteUnit(RegionValidator.Read(grid, RegionValidator.BlockCoords(req.data.startRow, req.data.startCol))))
    ensures res.valid <==> IsCompleteUnit(UnitValues(grid, PlannedUnit(k)))
  {
    if k < 9 {
      assert PlannedConfig(k).kind == RegionValidator.ValidateColumnType;
    } else if k < 18 {
      assert PlannedConfig(k).kind == RegionValidator.ValidateRowType;
    } else {
      var b := k - 18;
      assert PlannedConfig(k).data.startRow == BoxStartRow(b) && PlannedConfig(k).data.startCol == BoxStartCol(b);
      RegionValidator.AlignedBlockIsBox(grid, b);
    }
  }

  // ---------------------------------------------------------------------------
  // The example boards (loadValidExample, loadInvalidExample).

  /** `loadValidExample`. */
  const ValidExample: Grid := [
    [6, 2, 4, 5, 3, 9, 1, 8, 7],
    [5, 1, 9, 7, 2, 8, 6, 3, 4],
    [8, 3, 7, 6, 1, 4, 2, 9, 5],
    [1, 4, 3, 8, 6, 5, 7, 2, 9],
    [9, 5, 8, 2, 4, 7, 3, 6, 1],
    [7, 6, 2, 3, 9, 1, 4, 5, 8],
    [3, 7, 1, 9, 5, 6, 8, 4, 2],
    [4, 9, 6, 1, 8, 2, 5, 7, 3],
    [2, 8, 5, 4, 7, 3, 9, 1, 6]]

  /** `loadInvalidExample`: the valid example with its last cell 1 instead of 6. */
  const InvalidExample: Grid := [
    [6, 2, 4, 5, 3, 9, 1, 8, 7],
    [5, 1, 9, 7, 2, 8, 6, 3, 4],
    [8, 3, 7, 6, 1, 4, 2, 9, 5],
    [1, 4, 3, 8, 6, 5, 7, 2, 9],
    [9, 5, 8, 2, 4, 7, 3, 6, 1],
    [7, 6, 2, 3, 9, 1, 4, 5, 8],
    [3, 7, 1, 9, 5, 6, 8, 4, 2],
    [4, 9, 6, 1, 8, 2, 5, 7, 3],
    [2, 8, 5, 4, 7, 3, 9, 1, 1]]

  lemma ValidRow(k: int)
    requires 0 <= k < 9
    ensures IsGrid(ValidExample) && IsCompleteUnit(Row(ValidExample, k))
  {
    var u := Row(ValidExample, k);
    if k == 0 {
      var v := [6, 2, 4, 5, 3, 9, 1, 8, 7];
      assert HasEveryDigit(v) && u == v;
    } else if k == 1 {
      var v := [5, 1, 9, 7, 2, 8, 6, 3, 4];
      assert HasEveryDigit(v) && u == v;
    } else if k == 2 {
      var v := [8, 3, 7, 6, 1, 4, 2, 9, 5];
      assert HasEveryDigit(v) && u == v;
    } else if k == 3 {
      var v := [1, 4, 3, 8, 6, 5, 7, 2, 9];
      assert HasEveryDigit(v) && u == v;
    } else if k == 4 {
      var v := [9, 5, 8, 2, 4, 7, 3, 6, 1];
      assert HasEveryDigit(v) && u == v;
    } else if k == 5 {
      var v := [7, 6, 2, 3, 9, 1, 4, 5, 8];
      assert HasEveryDigit(v) && u == v;
    } else if k == 6 {
      var v := [3, 7, 1, 9, 5, 6, 8, 4, 2];
      assert HasEveryDigit(v) && u == v;
    } else if k == 7 {
      var v := [4, 9, 6, 1, 8, 2, 5, 7, 3];
      assert HasEveryDigit(v) && u == v;
    } else {
      var v := [2, 8, 5, 4, 7, 3, 9, 1, 6];
      assert HasEveryDigit(v) && u == v;
    }
    EveryDigitComplete(u);
  }

  lemma ValidColumn(k: int)
    requires 0 <= k < 9
    ensures IsGrid(ValidExample) && IsCompleteUnit(Column(ValidExample, k))
  {
    var u := Column(ValidExample, k);
    if k == 0 {
      var v := [6, 5, 8, 1, 9, 7, 3, 4, 2];
      assert HasEveryDigit(v) && u == v;
    } else if k == 1 {
      var v := [2, 1, 3, 4, 5, 6, 7, 9, 8];
      assert HasEveryDigit(v) && u == v;
    } else if k == 2 {
      var v := [4, 9, 7, 3, 8, 2, 1, 6, 5];
      assert HasEveryDigit(v) && u == v;
    } else if k == 3 {
      var v := [5, 7, 6, 8, 2, 3, 9, 1, 4];
      assert HasEveryDigit(v) && u == v;
    } else if k == 4 {
      var v := [3, 2, 1, 6, 4, 9, 5, 8, 7];
      assert HasEveryDigit(v) && u == v;
    } else if k == 5 {
      var v := [9, 8, 4, 5, 7, 1, 6, 2, 3];
      assert HasEveryDigit(v) && u == v;
    } else if k == 6 {
      var v := [1, 6, 2, 7, 3, 4, 8, 5, 9];
      assert HasEveryDigit(v) && u == v;
    } else if k == 7 {
      var v := [8, 3, 9, 2, 6, 5, 4, 7, 1];
      assert HasEveryDigit(v) && u == v;
    } else {
      var v := [7, 4, 5, 9, 1, 8, 2, 3, 6];
      assert HasEveryDigit(v) && u == v;
    }
    EveryDigitComplete(u);
  }

  lemma ValidBox(k: int)
    requires 0 <= k < 9
    ensures IsGrid(ValidExample) && IsCompleteUnit(Box(ValidExample, k))
  {
    var u := Box(ValidExample, k);
    BoxCells(ValidExample, k);
    if k == 0 {
      assert BoxStartRow(k) == 0 && BoxStartCol(k) == 0;
      assert u == [6, 2, 4, 5, 1, 9, 8, 3, 7];
    } else if k == 1 {
      assert BoxStartRow(k) == 0 && BoxStartCol(k) == 3;
      assert u == [5, 3, 9, 7, 2, 8, 6, 1, 4];
    } else if k == 2 {
      assert BoxStartRow(k) == 0 && BoxStartCol(k) == 6;
      assert u == [1, 8, 7, 6, 3, 4, 2, 9, 5];
    } else if k == 3 {
      assert BoxStartRow(k) == 3 && BoxStartCol(k) == 0;
      assert u == [1, 4, 3, 9, 5, 8, 7, 6, 2];
    } else if k == 4 {
      assert BoxStartRow(k) == 3 && BoxStartCol(k) == 3;
      assert u == [8, 6, 5, 2, 4, 7, 3, 9, 1];
    } else if k == 5 {
      assert BoxStartRow(k) == 3 && BoxStartCol(k) == 6;
      assert u == [7, 2, 9, 3, 6, 1, 4, 5, 8];
    } else if k == 6 {
      assert BoxStartRow(k) == 6 && BoxStartCol(k) == 0;
      assert u == [3, 7, 1, 4, 9, 6, 2, 8, 5];
    } else if k == 7 {
      assert BoxStartRow(k) == 6 && BoxStartCol(k) == 3;
      assert u == [9, 5, 6, 1, 8, 2, 4, 7, 3];
    } else {
      assert BoxStartRow(k) == 6 && BoxStartCol(k) == 6;
      assert u == [8, 4, 2, 5, 7, 3, 9, 1, 6];
    }
    EveryDigitComplete(u);
  }

  /** The invalid example is the valid one with cell (8, 8) set to 1. */
  lemma LastCellChanged()
    ensures InvalidExample == ValidExample[8 := ValidExample[8][8 := 1]]
  {
    assert InvalidExample[8] == ValidExample[8][8 := 1];
    forall r | 0 <= r < 8 ensures InvalidExample[r] == ValidExample[r] {
    }
  }

  /** Away from the last cell the two examples have the same units. */
  lemma ExamplesShareUnits(k: int)
    requires 0 <= k < 8
    ensures IsGrid(InvalidExample) && IsGrid(ValidExample)
    ensures Row(InvalidExample, k) == Row(ValidExample, k)
    ensures Column(InvalidExample, k) == Column(ValidExample, k)
    ensures Box(InvalidExample, k) == Box(ValidExample, k)
  {
    LastCellChanged();
    forall t | 0 <= t < 9
      ensures Box(InvalidExample, k)[t] == Box(ValidExample, k)[t]
    {
      BoxCellIndex(k, t);
    }
  }

  /** The valid example is a solved board. */
  lemma ValidExampleSolved()
    ensures IsGrid(ValidExample) && IsSolved(ValidExample)
  {
    forall k | 0 <= k < 9
      ensures IsCompleteUnit(Row(ValidExample, k)) && IsCompleteUnit(Column(ValidExample, k)) && IsCompleteUnit(Box(ValidExample, k))
    {
      ValidRow(k);
      ValidColumn(k);
      ValidBox(k);
    }
    SolvedIffUnitsComplete(ValidExample);
  }

  /** The invalid example differs from the valid one in the last cell only, and exactly
      three threads reject it: column 9, row 9 and subgrid 9 (thread ids 8, 17, 26). */
  lemma InvalidExampleFailsThreeUnits()
    ensures IsGrid(InvalidExample) && IsFull(InvalidExample) && !IsSolved(InvalidExample)
    ensures InvalidExample == ValidExample[8 := ValidExample[8][8 := 1]]
    ensures IncompleteUnits(InvalidExample) == {8, 17, 26}
  {
    LastCellChanged();
    var g := InvalidExample;
    LastUnitsBroken();
    forall k | 0 <= k < TotalThreads
      ensures k in IncompleteUnits(g) <==> k in {8, 17, 26}
    {
      InvalidUnit(k);
    }
    InvalidExampleFull();
    SolvedIffUnitsComplete(g);
  }

  /** Every cell of the invalid example holds a digit. */
  lemma InvalidExampleFull()
    ensures IsGrid(InvalidExample) && IsFull(InvalidExample)
  {
    var g := InvalidExample;
    LastCellChanged();
    ValidExampleSolved();
    forall r, c | 0 <= r < 9 && 0 <= c < 9 ensures IsDigit(g[r][c]) {
      assert g[r][c] == (if r == 8 && c == 8 then 1 else ValidExample[r][c]);
    }
  }

  /** Row, column and box 9 of the invalid example repeat the digit 1. */
  lemma LastUnitsBroken()
    ensures IsGrid(InvalidExample)
    ensures !IsCompleteUnit(Row(InvalidExample, 8))
    ensures !IsCompleteUnit(Column(InvalidExample, 8))
    ensures !IsCompleteUnit(Box(InvalidExample, 8))
  {
    var g := InvalidExample;
    assert Row(g, 8)[7] == Row(g, 8)[8];
    assert Column(g, 8)[4] == Column(g, 8)[8];
    assert Box(g, 8)[7] == Box(g, 8)[8] by {
      assert BoxStartRow(8) == 6 && BoxStartCol(8) == 6;
    }
  }

  /** Planned unit `k` of the invalid example is incomplete exactly for k in {8, 17, 26}. */
  lemma InvalidUnit(k: int)
    requires 0 <= k < TotalThreads
    ensures IsGrid(InvalidExample)
    ensures !IsCompleteUnit(UnitValues(InvalidExample, PlannedUnit(k))) <==> k in {8, 17, 26}
  {
    var g := InvalidExample;
    LastUnitsBroken();
    var i := if k < 9 then k else if k < 18 then k - 9 else k - 18;
    if i < 8 {
      ExamplesShareUnits(i);
      ValidRow(i);
      ValidColumn(i);
      ValidBox(i);
    }
  }

  /** Every planned unit of the valid example is complete. */
  lemma ValidExampleFacts()
    ensures IsGrid(ValidExample) && IsFull(ValidExample) && IsSolved(ValidExample)
    ensures |IncompleteUnits(ValidExample)| == 0
  {
    ValidExampleSolved();
    PlanCoversUnits(ValidExample);
    assert IncompleteUnits(ValidExample) == {};
  }

  /** Exactly three planned units of the invalid example are incomplete. */
  lemma InvalidExampleFacts()
    ensures IsGrid(InvalidExample) && IsFull(InvalidExample) && !IsSolved(InvalidExample)
    ensures |IncompleteUnits(InvalidExample)| == 3
  {
    InvalidExampleFailsThreeUnits();
    ThreeThreads();
  }

  lemma ThreeThreads()
    ensures |{8, 17, 26}| == 3
  {
    assert {8, 17, 26} == {8} + {17} + {26};
  }

  /** Loading either example and validating it: the valid one passes all 27 threads, the
      invalid one fails three. */
  method ValidateExamples() returns (valid: Outcome, invalid: Outcome)
    ensures valid == Finished(Analysis(true, 27, 0))
    ensures invalid == Finished(Analysis(false, 24, 3))
  {
    ValidExampleFacts();
    InvalidExampleFacts();
    valid := ValidateSudoku(ValidExample);
    invalid := ValidateSudoku(InvalidExample);
  }
}
