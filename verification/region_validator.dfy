/**
  The early-exit unit checker of the 27-thread validator front-end
  (js/validator-worker.js). One worker checks one column, one row or one 3x3
  subgrid of the grid it is sent: it reads the nine cells in scan order and
  stops at the first value outside 1..9 or the first value already seen.
 */
module RegionValidator {
  import opened Board

  /** The `message` text of a result, as structured data. */
  datatype Message =
    | InvalidValue(value: int, row1: int, col1: int)  // "Valor inválido v na posição [row1, col1]" (1-based)
    | Duplicated(value: int)                          // "Valor v duplicado"
    | AllDigits                                       // "Válida - Contém todos os dígitos 1-9" for a row or
                                                      // column, "Válido - …" for a subgrid
    | UnknownType(kind: string)                       // "Erro: Tipo de validação desconhecido: kind"
    | NoMessage                                       // the initial ''

  /** The `region` label: "Coluna n", "Linha n", "Subgrid n" (1-based), or ''. */
  datatype Region = ColumnRegion(n: int) | RowRegion(n: int) | SubgridRegion(n: int) | NoRegion

  datatype RegionResult = RegionResult(
    threadId: int, kind: string, valid: bool, region: Region, message: Message, values: seq<int>)

  datatype Status = Completed | Error

  /** The fields of the message's `data` object that the worker reads. */
  datatype TaskData = TaskData(columnIndex: int, rowIndex: int, startRow: int, startCol: int)

  datatype Request = Request(kind: string, data: TaskData, threadId: int, grid: Grid)

  datatype Response = Response(status: Status, result: RegionResult)

  const ValidateColumnType := "VALIDATE_COLUMN"
  const ValidateRowType := "VALIDATE_ROW"
  const ValidateSubgridType := "VALIDATE_SUBGRID"

  // ---------------------------------------------------------------------------
  // Reference definitions for the scan.

  /** Cells in scan order. */
  type Coords = seq<(int, int)>

  predicate CoordsInGrid(coords: Coords) {
    forall k :: 0 <= k < |coords| ==> InBounds(coords[k].0, coords[k].1)
  }

  /** The values the scan visits, in order. */
  function Read(g: Grid, coords: Coords): (vals: seq<int>)
    requires IsGrid(g) && CoordsInGrid(coords)
    ensures |vals| == |coords|
    ensures forall k :: 0 <= k < |coords| ==> vals[k] == g[coords[k].0][coords[k].1]
  {
    seq(|coords|, k requires 0 <= k < |coords| => g[coords[k].0][coords[k].1])
  }

  /** The first `k` values are digits and pairwise distinct: the scan passes them. */
  predicate CleanPrefix(vals: seq<int>, k: int)
    requires 0 <= k <= |vals|
  {
    (forall i :: 0 <= i < k ==> IsDigit(vals[i])) &&
    (forall i, j :: 0 <= i < j < k ==> vals[i] != vals[j])
  }

  /** The scan stops at position `f`: out of range, or a repeat of an earlier value. */
  predicate FailsAt(vals: seq<int>, f: int)
    requires 0 <= f < |vals|
  {
    !IsDigit(vals[f]) || vals[f] in vals[..f]
  }

  /** What the scan reports at its stopping cell: the range check comes first. */
  function FailureMessage(vals: seq<int>, coords: Coords, f: int): Message
    requires |vals| == |coords| && 0 <= f < |vals|
  {
    if !IsDigit(vals[f]) then InvalidValue(vals[f], coords[f].0 + 1, coords[f].1 + 1)
    else Duplicated(vals[f])
  }

  /**
    The loop shared by `validateColumn`, `validateRow` and `validateSubgrid`:
    push the value, reject it if outside 1..9, reject it if already seen,
    otherwise remember it. `values` is what was pushed before returning.
   */
  method ScanCells(g: Grid, coords: Coords) returns (valid: bool, message: Message, values: seq<int>)
    requires IsGrid(g) && CoordsInGrid(coords)
    ensures var vals := Read(g, coords);
      valid ==> values == vals && message == AllDigits && CleanPrefix(vals, |vals|)
    ensures var vals := Read(g, coords);
      !valid ==>
        1 <= |values| <= |vals| && values == vals[..|values|] &&
        CleanPrefix(vals, |values| - 1) && FailsAt(vals, |values| - 1) &&
        message == FailureMessage(vals, coords, |values| - 1)
  {
    ghost var vals := Read(g, coords);
    var seen: set<int> := {};
    values := [];
    var k := 0;
    while k < |coords|
      invariant 0 <= k <= |coords|
      invariant values == vals[..k]
      invariant CleanPrefix(vals, k)
      invariant forall v :: v in seen <==> v in vals[..k]
    {
      var value := g[coords[k].0][coords[k].1];
      values := values + [value];
      if value < 1 || value > 9 {
        return false, InvalidValue(value, coords[k].0 + 1, coords[k].1 + 1), values;
      }
      if value in seen {
        return false, Duplicated(value), values;
      }
      seen := seen + {value};
      k := k + 1;
    }
    return true, AllDigits, values;
  }

  /** The scan passes exactly the units that are permutations of 1..9. */
  lemma CleanIffComplete(vals: seq<int>)
    requires |vals| == 9
    ensures CleanPrefix(vals, 9) <==> IsCompleteUnit(vals)
  {
  }

  /** A scan that stops cannot have a clean full prefix. */
  lemma FailureBreaksUnit(vals: seq<int>, f: int)
    requires 0 <= f < |vals| == 9 && FailsAt(vals, f)
    ensures !IsCompleteUnit(vals)
  {
    if vals[f] in vals[..f] {
      var i :| 0 <= i < f && vals[..f][i] == vals[f];
      assert vals[i] == vals[f];
    }
  }

  // ---------------------------------------------------------------------------
  // The three validators.

  function ColumnCoords(j: int): (coords: Coords)
    ensures |coords| == 9 && forall t :: 0 <= t < 9 ==> coords[t] == (t, j)
  {
    seq(9, t => (t, j))
  }

  function RowCoords(i: int): (coords: Coords)
    ensures |coords| == 9 && forall t :: 0 <= t < 9 ==> coords[t] == (i, t)
  {
    seq(9, t => (i, t))
  }

  /** The 3x3 block whose top-left cell is (startRow, startCol), row-major. */
  function BlockCoords(startRow: int, startCol: int): (coords: Coords)
    ensures |coords| == 9
    ensures forall t :: 0 <= t < 9 ==> coords[t] == (startRow + t / 3, startCol + t % 3)
  {
    seq(9, t => (startRow + t / 3, startCol + t % 3))
  }

  /** `getSubgridNumber`: the 1-based number of the box holding (startRow, startCol). */
  function GetSubgridNumber(startRow: int, startCol: int): (n: int)
    ensures InBounds(startRow, startCol) ==> 1 <= n <= 9 && n == BoxIndex(startRow, startCol) + 1
  {
    (startRow / 3) * 3 + startCol / 3 + 1
  }

  /** The common shape of the three validators' contracts. */
  predicate ReportsUnit(res: RegionResult, vals: seq<int>, coords: Coords)
    requires |vals| == |coords| == 9
  {
    (res.valid <==> IsCompleteUnit(vals)) &&
    (res.valid ==> res.values == vals && res.message == AllDigits) &&
    (!res.valid ==>
      1 <= |res.values| <= 9 && res.values == vals[..|res.values|] &&
      CleanPrefix(vals, |res.values| - 1) && FailsAt(vals, |res.values| - 1) &&
      res.message == FailureMessage(vals, coords, |res.values| - 1))
  }

  method ValidateColumn(g: Grid, columnIndex: int, threadId: int) returns (res: RegionResult)
    requires IsGrid(g) && 0 <= columnIndex < 9
    ensures res.threadId == threadId && res.kind == ValidateColumnType
    ensures res.region == ColumnRegion(columnIndex + 1)
    ensures ReportsUnit(res, Column(g, columnIndex), ColumnCoords(columnIndex))
  {
    var coords := ColumnCoords(columnIndex);
    assert Read(g, coords) == Column(g, columnIndex);
    var valid, message, values := ScanCells(g, coords);
    res := RegionResult(threadId, ValidateColumnType, valid, ColumnRegion(columnIndex + 1), message, values);
    Conclude(Read(g, coords), coords, res);
  }

  method ValidateRow(g: Grid, rowIndex: int, threadId: int) returns (res: RegionResult)
    requires IsGrid(g) && 0 <= rowIndex < 9
    ensures res.threadId == threadId && res.kind == ValidateRowType
    ensures res.region == RowRegion(rowIndex + 1)
    ensures ReportsUnit(res, Row(g, rowIndex), RowCoords(rowIndex))
  {
    var coords := RowCoords(rowIndex);
    assert Read(g, coords) == Row(g, rowIndex);
    var valid, message, values := ScanCells(g, coords);
    res := RegionResult(threadId, ValidateRowType, valid, RowRegion(rowIndex + 1), message, values);
    Conclude(Read(g, coords), coords, res);
  }

  /** Scans the 3x3 block starting at (startRow, startCol), wherever that is. */
  method ValidateSubgrid(g: Grid, startRow: int, startCol: int, threadId: int) returns (res: RegionResult)
    requires IsGrid(g) && 0 <= startRow <= 6 && 0 <= startCol <= 6
    ensures res.threadId == threadId && res.kind == ValidateSubgridType
    ensures res.region == SubgridRegion(GetSubgridNumber(startRow, startCol))
    ensures ReportsUnit(res, Read(g, BlockCoords(startRow, startCol)), BlockCoords(startRow, startCol))
  {
    var coords := BlockCoords(startRow, startCol);
    var valid, message, values := ScanCells(g, coords);
    res := RegionResult(threadId, ValidateSubgridType, valid, SubgridRegion(GetSubgridNumber(startRow, startCol)), message, values);
    Conclude(Read(g, coords), coords, res);
  }

  lemma Conclude(vals: seq<int>, coords: Coords, res: RegionResult)
    requires |vals| == |coords| == 9
    requires res.valid ==> res.values == vals && res.message == AllDigits && CleanPrefix(vals, 9)
    requires !res.valid ==>
      1 <= |res.values| <= 9 && res.values == vals[..|res.values|] &&
      CleanPrefix(vals, |res.values| - 1) && FailsAt(vals, |res.values| - 1) &&
      res.message == FailureMessage(vals, coords, |res.values| - 1)
    ensures ReportsUnit(res, vals, coords)
  {
    CleanIffComplete(vals);
    if !res.valid {
      FailureBreaksUnit(vals, |res.values| - 1);
    }
  }

  /** A box-aligned block is exactly box `b` of the board. */
  lemma AlignedBlockIsBox(g: Grid, b: int)
    requires IsGrid(g) && 0 <= b < 9
    ensures Read(g, BlockCoords(BoxStartRow(b), BoxStartCol(b))) == Box(g, b)
  {
  }

  // ---------------------------------------------------------------------------
  // The message handler.

  /** Indices the handler needs for the known request types. */
  predicate WellFormed(req: Request) {
    IsGrid(req.grid) &&
    (req.kind == ValidateColumnType ==> 0 <= req.data.columnIndex < 9) &&
    (req.kind == ValidateRowType ==> 0 <= req.data.rowIndex < 9) &&
    (req.kind == ValidateSubgridType ==> 0 <= req.data.startRow <= 6 && 0 <= req.data.startCol <= 6)
  }

  predicate IsKnownType(kind: string) {
    kind == ValidateColumnType || kind == ValidateRowType || kind == ValidateSubgridType
  }

  /** `onmessage` without the timing and the delayed post: dispatch on `type`. */
  method HandleMessage(req: Request) returns (resp: Response)
    requires WellFormed(req)
    ensures resp.result.threadId == req.threadId && resp.result.kind == req.kind
    ensures resp.status == Completed <==> IsKnownType(req.kind)
    ensures resp.status == Error ==>
      !resp.result.valid && resp.result.message == UnknownType(req.kind) && resp.result.region == NoRegion
    ensures req.kind == ValidateColumnType ==>
      resp.result.valid == IsCompleteUnit(Column(req.grid, req.data.columnIndex))
    ensures req.kind == ValidateRowType ==>
      resp.result.valid == IsCompleteUnit(Row(req.grid, req.data.rowIndex))
    ensures req.kind == ValidateSubgridType ==>
      resp.result.valid == IsCompleteUnit(Read(req.grid, BlockCoords(req.data.startRow, req.data.startCol)))
  {
    var initial := RegionResult(req.threadId, req.kind, false, NoRegion, NoMessage, []);
    var result := initial;
    if req.kind == ValidateColumnType {
      result := ValidateColumn(req.grid, req.data.columnIndex, req.threadId);
    } else if req.kind == ValidateRowType {
      result := ValidateRow(req.grid, req.data.rowIndex, req.threadId);
    } else if req.kind == ValidateSubgridType {
      result := ValidateSubgrid(req.grid, req.data.startRow, req.data.startCol, req.threadId);
    } else {
      return Response(Error, initial.(valid := false, message := UnknownType(req.kind)));
    }
    return Response(Completed, result);
  }
}
