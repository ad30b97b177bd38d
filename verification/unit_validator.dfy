/**
  The unit validator of the single-page front-end (validatorWorker.js). A
  message carries one unit (a row, column or box) as cells with coordinates;
  the worker classifies every cell as `empty`, `invalid` or `duplicate`,
  flags the first-seen cell of a repeated value once (a registry keyed by
  coordinate), and decides validity from the issues and the number of
  distinct values seen. The worker is a pure function of the message.
 */
module UnitValidator {
  import opened Board
  import Shuffle

  /** `Number(cell.value)`: an integer, or anything that is not one (NaN, 2.5, ...). */
  datatype Value = Int(n: int) | NonInteger

  datatype Pos = Pos(row: int, col: int)

  datatype Cell = Cell(row: int, col: int, value: Value)

  datatype Issue = Empty | Invalid | Duplicate

  datatype Entry = Entry(row: int, col: int, issue: Issue)

  datatype UnitResult = UnitResult(kind: string, index: int, valid: bool, invalidPositions: seq<Entry>)

  /** The worker's locals: `seen` (value to first position), the issues, the registry. */
  datatype ScanState = ScanState(seen: map<int, Pos>, entries: seq<Entry>, registry: set<Pos>)

  /** Non-integer, or zero: the worker's "empty" test. */
  predicate IsBlank(v: Value) {
    v.NonInteger? || v.n == 0
  }

  predicate InRange(v: Value) {
    v.Int? && 1 <= v.n <= 9
  }

  /** An integer that is neither 0 nor in 1..9. */
  predicate OutOfRange(v: Value) {
    !IsBlank(v) && !InRange(v)
  }

  function PosOf(c: Cell): Pos {
    Pos(c.row, c.col)
  }

  /** One iteration of `cells.forEach`. */
  function Step(st: ScanState, cell: Cell, ignoreEmpty: bool): ScanState {
    if IsBlank(cell.value) then
      if ignoreEmpty then st else st.(entries := st.entries + [Entry(cell.row, cell.col, Empty)])
    else if cell.value.n < 1 || cell.value.n > 9 then
      st.(entries := st.entries + [Entry(cell.row, cell.col, Invalid)])
    else if cell.value.n in st.seen then
      var previous := st.seen[cell.value.n];
      if previous !in st.registry then
        st.(entries := st.entries + [Entry(previous.row, previous.col, Duplicate), Entry(cell.row, cell.col, Duplicate)],
            registry := st.registry + {previous})
      else
        st.(entries := st.entries + [Entry(cell.row, cell.col, Duplicate)])
    else
      st.(seen := st.seen[cell.value.n := PosOf(cell)])
  }

  /** The state after the worker has visited all of `cells`, in order. */
  function Scan(cells: seq<Cell>, ignoreEmpty: bool): ScanState
    decreases |cells|
  {
    if cells == [] then ScanState(map[], [], {})
    else Step(Scan(cells[..|cells| - 1], ignoreEmpty), cells[|cells| - 1], ignoreEmpty)
  }

  /** `onmessage` for a unit `{kind, index, cells, ignoreEmpty}`. Strict mode accepts exactly
      nine cells holding 1..9 once each; lenient mode accepts exactly the units with no
      out-of-range integer and no repeated digit, blanks allowed. */
  function ValidateUnit(kind: string, index: int, cells: seq<Cell>, ignoreEmpty: bool): (res: UnitResult)
    ensures res.kind == kind && res.index == index
    ensures !ignoreEmpty ==> (res.valid <==> |cells| == 9 && IsCompleteUnit(AsInts(cells)))
    ensures ignoreEmpty ==>
      (res.valid <==> (forall i :: 0 <= i < |cells| ==> !OutOfRange(cells[i].value)) && NoRepeatedDigit(cells))
    ensures res.invalidPositions == Scan(cells, ignoreEmpty).entries
  {
    var st := Scan(cells, ignoreEmpty);
    StrictScanIffPermutation(cells);
    NoEntriesIff(cells, ignoreEmpty);
    var valid := if ignoreEmpty then |st.entries| == 0 else |st.entries| == 0 && |st.seen| == 9;
    UnitResult(kind, index, valid, st.entries)
  }

  // ---------------------------------------------------------------------------
  // Reference notions about a unit's cells.

  function Values(cells: seq<Cell>): (vs: seq<Value>)
    ensures |vs| == |cells| && forall i :: 0 <= i < |cells| ==> vs[i] == cells[i].value
  {
    seq(|cells|, i requires 0 <= i < |cells| => cells[i].value)
  }

  /** The cell values as board integers; a non-integer reads as the empty 0. */
  function AsInts(cells: seq<Cell>): (u: seq<int>)
    ensures |u| == |cells|
    ensures forall i :: 0 <= i < |cells| ==> u[i] == (if cells[i].value.Int? then cells[i].value.n else 0)
  {
    seq(|cells|, i requires 0 <= i < |cells| => if cells[i].value.Int? then cells[i].value.n else 0)
  }

  /** How many cells hold the integer `v`. */
  function Count(cells: seq<Cell>, v: int): nat {
    multiset(Values(cells))[Int(v)]
  }

  predicate DistinctCoords(cells: seq<Cell>) {
    forall i, j :: 0 <= i < j < |cells| ==> PosOf(cells[i]) != PosOf(cells[j])
  }

  /** No in-range value occurs twice. */
  predicate NoRepeatedDigit(cells: seq<Cell>) {
    forall i, j :: 0 <= i < j < |cells| && InRange(cells[i].value) ==> cells[i].value != cells[j].value
  }

  /** Index of the first cell holding `v`. */
  function FirstIndex(cells: seq<Cell>, v: int): (i: nat)
    requires Int(v) in Values(cells)
    ensures i < |cells| && cells[i].value == Int(v)
    ensures forall j :: 0 <= j < i ==> cells[j].value != Int(v)
    decreases |cells|
  {
    var w := cells[..|cells| - 1];
    if Int(v) in Values(w) then
      assert forall j :: 0 <= j < |w| ==> Values(w)[j] == Values(cells)[j];
      FirstIndex(w, v)
    else
      assert forall j :: 0 <= j < |w| ==> Values(w)[j] == cells[j].value;
      |cells| - 1
  }

  /** Positions of cells whose in-range value occurs at least twice. */
  function Repeated(cells: seq<Cell>): set<Pos> {
    set i | 0 <= i < |cells| && InRange(cells[i].value) && Count(cells, cells[i].value.n) >= 2 :: PosOf(cells[i])
  }

  /** The `empty` or `invalid` entries a unit must produce, in scan order. */
  function ClassEntries(cells: seq<Cell>, issue: Issue, ignoreEmpty: bool): seq<Entry>
    decreases |cells|
  {
    if cells == [] then []
    else
      var c := cells[|cells| - 1];
      var here := (issue == Empty && !ignoreEmpty && IsBlank(c.value)) || (issue == Invalid && OutOfRange(c.value));
      ClassEntries(cells[..|cells| - 1], issue, ignoreEmpty) + (if here then [Entry(c.row, c.col, issue)] else [])
  }

  /** The entries carrying `issue`, in order. */
  function Only(entries: seq<Entry>, issue: Issue): seq<Entry>
    decreases |entries|
  {
    if entries == [] then []
    else Only(entries[..|entries| - 1], issue) + (if entries[|entries| - 1].issue == issue then [entries[|entries| - 1]] else [])
  }

  /** Positions of the `duplicate` entries, in order. */
  function DuplicatePositions(entries: seq<Entry>): seq<Pos>
    decreases |entries|
  {
    if entries == [] then []
    else
      var e := entries[|entries| - 1];
      DuplicatePositions(entries[..|entries| - 1]) + (if e.issue == Duplicate then [Pos(e.row, e.col)] else [])
  }

  // ---------------------------------------------------------------------------
  // Small sequence facts.

  lemma ValuesSnoc(cells: seq<Cell>)
    requires cells != []
    ensures Values(cells) == Values(cells[..|cells| - 1]) + [cells[|cells| - 1].value]
  {
  }

  lemma {:induction false} OnlyAppend(a: seq<Entry>, b: seq<Entry>, issue: Issue)
    ensures Only(a + b, issue) == Only(a, issue) + Only(b, issue)
    decreases |b|
  {
    if b == [] {
      assert a + b == a;
    } else {
      var b' := b[..|b| - 1];
      assert (a + b)[..|a + b| - 1] == a + b';
      OnlyAppend(a, b', issue);
    }
  }

  lemma {:induction false} DuplicatePositionsAppend(a: seq<Entry>, b: seq<Entry>)
    ensures DuplicatePositions(a + b) == DuplicatePositions(a) + DuplicatePositions(b)
    decreases |b|
  {
    if b == [] {
      assert a + b == a;
    } else {
      var b' := b[..|b| - 1];
      assert (a + b)[..|a + b| - 1] == a + b';
      DuplicatePositionsAppend(a, b');
    }
  }

  // ---------------------------------------------------------------------------
  // What `seen` holds.

  /** `seen` maps exactly the in-range values met so far, each to its first position. */
  ghost predicate SeenSpec(cells: seq<Cell>, seen: map<int, Pos>) {
    (forall v :: v in seen <==> 1 <= v <= 9 && Int(v) in Values(cells)) &&
    (forall v :: v in seen ==> Int(v) in Values(cells) && seen[v] == PosOf(cells[FirstIndex(cells, v)]))
  }

  lemma {:induction false} SeenInvariant(cells: seq<Cell>, ignoreEmpty: bool)
    ensures SeenSpec(cells, Scan(cells, ignoreEmpty).seen)
    decreases |cells|
  {
    if cells != [] {
      var w := cells[..|cells| - 1];
      var c := cells[|cells| - 1];
      SeenInvariant(w, ignoreEmpty);
      ValuesSnoc(cells);
      var seen := Scan(w, ignoreEmpty).seen;
      var seen' := Scan(cells, ignoreEmpty).seen;
      forall v | v in seen' ensures Int(v) in Values(cells) && seen'[v] == PosOf(cells[FirstIndex(cells, v)]) {
        if v in seen {
          assert Int(v) in Values(w);
          assert FirstIndex(cells, v) == FirstIndex(w, v);
        }
      }
    }
  }

  /** `seen.size` never exceeds the number of cells visited. */
  lemma {:induction false} SeenSize(cells: seq<Cell>, ignoreEmpty: bool)
    ensures |Scan(cells, ignoreEmpty).seen| <= |cells|
    decreases |cells|
  {
    if cells != [] {
      SeenSize(cells[..|cells| - 1], ignoreEmpty);
    }
  }

  // ---------------------------------------------------------------------------
  // Empty and invalid entries.

  /** Each blank cell yields one `empty` entry (none when blanks are ignored) and each
      out-of-range integer one `invalid` entry, in scan order; no other cell does. */
  lemma {:induction false} ClassEntriesExact(cells: seq<Cell>, ignoreEmpty: bool, issue: Issue)
    requires issue != Duplicate
    ensures Only(Scan(cells, ignoreEmpty).entries, issue) == ClassEntries(cells, issue, ignoreEmpty)
    decreases |cells|
  {
    if cells != [] {
      ClassEntriesExact(cells[..|cells| - 1], ignoreEmpty, issue);
      StepOnly(Scan(cells[..|cells| - 1], ignoreEmpty), cells[|cells| - 1], ignoreEmpty, issue);
    }
  }

  /** The `issue` entries of a single entry. */
  lemma OnlyOne(e: Entry, issue: Issue)
    ensures Only([e], issue) == if e.issue == issue then [e] else []
  {
    assert [e][..0] == [];
  }

  /** What one step appends to the `empty` or `invalid` entries. */
  lemma StepOnly(st: ScanState, c: Cell, ignoreEmpty: bool, issue: Issue)
    requires issue != Duplicate
    ensures Only(Step(st, c, ignoreEmpty).entries, issue) == Only(st.entries, issue) +
      (if (issue == Empty && !ignoreEmpty && IsBlank(c.value)) || (issue == Invalid && OutOfRange(c.value))
       then [Entry(c.row, c.col, issue)] else [])
  {
    if IsBlank(c.value) {
      if !ignoreEmpty {
        var e := Entry(c.row, c.col, Empty);
        OnlyOne(e, issue);
        OnlyAppend(st.entries, [e], issue);
      }
    } else if !InRange(c.value) {
      var e := Entry(c.row, c.col, Invalid);
      OnlyOne(e, issue);
      OnlyAppend(st.entries, [e], issue);
    } else if c.value.n in st.seen {
      var previous := st.seen[c.value.n];
      var e := Entry(c.row, c.col, Duplicate);
      OnlyOne(e, issue);
      if previous !in st.registry {
        var e0 := Entry(previous.row, previous.col, Duplicate);
        OnlyOne(e0, issue);
        OnlyAppend([e0], [e], issue);
        assert [e0, e] == [e0] + [e];
        OnlyAppend(st.entries, [e0, e], issue);
      } else {
        OnlyAppend(st.entries, [e], issue);
      }
    }
  }

  // ---------------------------------------------------------------------------
  // When the issue list is empty.

  /** The scan records no issue exactly when there is no blank (unless ignored),
      no out-of-range integer and no repeated in-range value. */
  lemma {:induction false} NoEntriesIff(cells: seq<Cell>, ignoreEmpty: bool)
    ensures Scan(cells, ignoreEmpty).entries == [] <==>
      (forall i :: 0 <= i < |cells| ==> !OutOfRange(cells[i].value) && (ignoreEmpty || !IsBlank(cells[i].value))) &&
      NoRepeatedDigit(cells)
    decreases |cells|
  {
    if cells != [] {
      var w := cells[..|cells| - 1];
      var c := cells[|cells| - 1];
      NoEntriesIff(w, ignoreEmpty);
      SeenInvariant(w, ignoreEmpty);
      ValuesSnoc(cells);
      var st := Scan(w, ignoreEmpty);
      assert |Scan(cells, ignoreEmpty).entries| >= |st.entries|;
      if InRange(c.value) && c.value.n in st.seen {
        var f := FirstIndex(w, c.value.n);
        assert cells[f].value == c.value;
        assert !NoRepeatedDigit(cells);
      }
      if InRange(c.value) && c.value.n !in st.seen && NoRepeatedDigit(w) {
        NoRepeatSnoc(cells);
      }
      if !InRange(c.value) && NoRepeatedDigit(w) {
        NoRepeatSnoc(cells);
      }
    }
  }

  /** Appending a cell whose value is new or out of range keeps the values unrepeated. */
  lemma NoRepeatSnoc(cells: seq<Cell>)
    requires cells != [] && NoRepeatedDigit(cells[..|cells| - 1])
    requires var c := cells[|cells| - 1]; !InRange(c.value) || c.value !in Values(cells[..|cells| - 1])
    ensures NoRepeatedDigit(cells)
  {
    var w := cells[..|cells| - 1];
    forall i, j | 0 <= i < j < |cells| && InRange(cells[i].value) ensures cells[i].value != cells[j].value {
      if j == |cells| - 1 {
        assert Values(w)[i] == cells[i].value;
      } else {
        assert w[i] == cells[i] && w[j] == cells[j];
      }
    }
  }

  lemma SeenKeys(cells: seq<Cell>, ignoreEmpty: bool, v: int)
    ensures v in Scan(cells, ignoreEmpty).seen <==> 1 <= v <= 9 && Int(v) in Values(cells)
  {
    SeenInvariant(cells, ignoreEmpty);
  }

  /** A complete unit has every digit among its values. */
  lemma CompleteUnitHasValue(cells: seq<Cell>, d: int)
    requires IsCompleteUnit(AsInts(cells)) && 1 <= d <= 9
    ensures Int(d) in Values(cells)
  {
    CompleteUnitHasDigit(AsInts(cells), d);
    var i :| 0 <= i < |cells| && AsInts(cells)[i] == d;
    assert Values(cells)[i] == Int(d);
  }

  /** A clean unit's `seen` holds all of its values. */
  lemma SeenOfCompleteUnit(cells: seq<Cell>, ignoreEmpty: bool)
    requires IsCompleteUnit(AsInts(cells))
    ensures |Scan(cells, ignoreEmpty).seen| == 9
  {
    var seen := Scan(cells, ignoreEmpty).seen;
    forall v ensures v in seen <==> 1 <= v <= 9 {
      SeenKeys(cells, ignoreEmpty, v);
      if 1 <= v <= 9 {
        CompleteUnitHasValue(cells, v);
      }
    }
    assert seen.Keys == {1, 2, 3, 4, 5, 6, 7, 8, 9};
    DigitsCard();
  }

  /** Strict mode: a scan that reports nothing and has seen nine values covered nine cells
      holding 1..9 once each, and conversely. */
  lemma {:induction false} StrictScanIffPermutation(cells: seq<Cell>)
    ensures (Scan(cells, false).entries == [] && |Scan(cells, false).seen| == 9) <==>
      |cells| == 9 && IsCompleteUnit(AsInts(cells))
  {
    if Scan(cells, false).entries == [] && |Scan(cells, false).seen| == 9 {
      StrictScanComplete(cells);
    }
    if |cells| == 9 && IsCompleteUnit(AsInts(cells)) {
      CompleteStrictScan(cells);
    }
  }

  lemma {:induction false} StrictScanComplete(cells: seq<Cell>)
    requires Scan(cells, false).entries == [] && |Scan(cells, false).seen| == 9
    ensures |cells| == 9 && IsCompleteUnit(AsInts(cells))
  {
    NoEntriesIff(cells, false);
    var u := AsInts(cells);
    SeenSize(cells, false);
    forall i | 0 <= i < |u| ensures IsDigit(u[i]) {
      assert !OutOfRange(cells[i].value) && !IsBlank(cells[i].value);
    }
    forall i, j | 0 <= i < j < |u| ensures u[i] != u[j] {
      assert InRange(cells[i].value) && InRange(cells[j].value);
      assert cells[i].value != cells[j].value;
    }
    DistinctDigitsCover(u, {1, 2, 3, 4, 5, 6, 7, 8, 9});
  }

  lemma {:induction false} CompleteStrictScan(cells: seq<Cell>)
    requires |cells| == 9 && IsCompleteUnit(AsInts(cells))
    ensures Scan(cells, false).entries == [] && |Scan(cells, false).seen| == 9
  {
    NoEntriesIff(cells, false);
    var u := AsInts(cells);
    forall i | 0 <= i < |cells| ensures !OutOfRange(cells[i].value) && !IsBlank(cells[i].value) {
      assert IsDigit(u[i]);
    }
    forall i, j | 0 <= i < j < |cells| && InRange(cells[i].value) ensures cells[i].value != cells[j].value {
      assert u[i] != u[j];
    }
    SeenOfCompleteUnit(cells, false);
  }

  // ---------------------------------------------------------------------------
  // Duplicate reporting (cells of one unit have distinct coordinates).

  lemma CountSnoc(cells: seq<Cell>, u: int)
    requires cells != []
    ensures Count(cells, u) ==
      Count(cells[..|cells| - 1], u) + (if cells[|cells| - 1].value == Int(u) then 1 else 0)
  {
    ValuesSnoc(cells);
  }

  lemma CountPositive(cells: seq<Cell>, u: int)
    requires Int(u) in Values(cells)
    ensures Count(cells, u) >= 1
  {
  }

  /** Different seen values were first met at different coordinates. */
  lemma SeenInjective(cells: seq<Cell>, ignoreEmpty: bool, u: int, v: int)
    requires DistinctCoords(cells)
    requires u in Scan(cells, ignoreEmpty).seen && v in Scan(cells, ignoreEmpty).seen
    requires Scan(cells, ignoreEmpty).seen[u] == Scan(cells, ignoreEmpty).seen[v]
    ensures u == v
  {
    SeenInvariant(cells, ignoreEmpty);
    var i := FirstIndex(cells, u);
    var j := FirstIndex(cells, v);
    if i != j {
      CoordsDiffer(cells, i, j);
      assert false;
    }
  }

  lemma CoordsDiffer(cells: seq<Cell>, i: int, j: int)
    requires DistinctCoords(cells) && 0 <= i < |cells| && 0 <= j < |cells| && i != j
    ensures PosOf(cells[i]) != PosOf(cells[j])
  {
    if j < i {
      assert PosOf(cells[j]) != PosOf(cells[i]);
    }
  }

  /** Every remembered position is that of an earlier cell. */
  lemma SeenPositionIsACell(cells: seq<Cell>, ignoreEmpty: bool, u: int) returns (k: nat)
    requires u in Scan(cells, ignoreEmpty).seen
    ensures k < |cells| && Scan(cells, ignoreEmpty).seen[u] == PosOf(cells[k])
    ensures cells[k].value == Int(u)
  {
    SeenInvariant(cells, ignoreEmpty);
    k := FirstIndex(cells, u);
  }

  /** The registry holds the first position of exactly the values seen twice or more. */
  ghost predicate RegistrySpec(cells: seq<Cell>, st: ScanState) {
    (forall p :: p in st.registry ==> exists u :: u in st.seen && st.seen[u] == p) &&
    (forall u :: u in st.seen ==> (st.seen[u] in st.registry <==> Count(cells, u) >= 2))
  }

  lemma {:induction false} RegistryInvariant(cells: seq<Cell>, ignoreEmpty: bool)
    requires DistinctCoords(cells)
    ensures RegistrySpec(cells, Scan(cells, ignoreEmpty))
    decreases |cells|
  {
    if cells != [] {
      var w := cells[..|cells| - 1];
      var c := cells[|cells| - 1];
      RegistryInvariant(w, ignoreEmpty);
      SeenInvariant(w, ignoreEmpty);
      var st' := Scan(cells, ignoreEmpty);
      forall u | u in st'.seen ensures st'.seen[u] in st'.registry <==> Count(cells, u) >= 2 {
        RegistryStepKey(cells, ignoreEmpty, u);
      }
      RegistryStepOwners(cells, ignoreEmpty);
    }
  }

  /** After one step every registered position is still the first position of a seen value. */
  lemma RegistryStepOwners(cells: seq<Cell>, ignoreEmpty: bool)
    requires cells != []
    requires RegistrySpec(cells[..|cells| - 1], Scan(cells[..|cells| - 1], ignoreEmpty))
    ensures var st' := Scan(cells, ignoreEmpty);
      forall p :: p in st'.registry ==> exists u :: u in st'.seen && st'.seen[u] == p
  {
    var st := Scan(cells[..|cells| - 1], ignoreEmpty);
    var c := cells[|cells| - 1];
    var st' := Scan(cells, ignoreEmpty);
    forall p | p in st'.registry ensures exists u :: u in st'.seen && st'.seen[u] == p {
      if p in st.registry {
        var u :| u in st.seen && st.seen[u] == p;
        assert u in st'.seen && st'.seen[u] == p;
      } else {
        assert InRange(c.value) && st'.seen[c.value.n] == p;
      }
    }
  }

  /** A first occurrence is recorded and not registered as repeated. */
  lemma RegistryStepNewValue(cells: seq<Cell>, ignoreEmpty: bool)
    requires DistinctCoords(cells) && cells != []
    requires RegistrySpec(cells[..|cells| - 1], Scan(cells[..|cells| - 1], ignoreEmpty))
    requires var c := cells[|cells| - 1];
      InRange(c.value) && c.value.n !in Scan(cells[..|cells| - 1], ignoreEmpty).seen
    ensures var c, st' := cells[|cells| - 1], Scan(cells, ignoreEmpty);
      st'.seen[c.value.n] !in st'.registry && Count(cells, c.value.n) < 2
  {
    var w := cells[..|cells| - 1];
    var c := cells[|cells| - 1];
    SeenKeys(w, ignoreEmpty, c.value.n);
    CountSnoc(cells, c.value.n);
    assert Int(c.value.n) !in Values(w);
    LastCellNotSeen(cells, ignoreEmpty);
  }

  /** No value seen before the last cell was first met at the last cell's coordinates. */
  lemma LastCellNotSeen(cells: seq<Cell>, ignoreEmpty: bool)
    requires DistinctCoords(cells) && cells != []
    requires RegistrySpec(cells[..|cells| - 1], Scan(cells[..|cells| - 1], ignoreEmpty))
    ensures PosOf(cells[|cells| - 1]) !in Scan(cells[..|cells| - 1], ignoreEmpty).registry
  {
    var w := cells[..|cells| - 1];
    var st := Scan(w, ignoreEmpty);
    forall v | v in st.seen ensures st.seen[v] != PosOf(cells[|cells| - 1]) {
      var k := SeenPositionIsACell(w, ignoreEmpty, v);
      CoordsDiffer(cells, k, |cells| - 1);
    }
  }

  /** One step keeps the registry condition for key `u`, given it held before. */
  lemma RegistryStepKey(cells: seq<Cell>, ignoreEmpty: bool, u: int)
    requires DistinctCoords(cells) && cells != []
    requires RegistrySpec(cells[..|cells| - 1], Scan(cells[..|cells| - 1], ignoreEmpty))
    requires u in Scan(cells, ignoreEmpty).seen
    ensures var st' := Scan(cells, ignoreEmpty);
      st'.seen[u] in st'.registry <==> Count(cells, u) >= 2
  {
    var w := cells[..|cells| - 1];
    var c := cells[|cells| - 1];
    SeenInvariant(w, ignoreEmpty);
    var st := Scan(w, ignoreEmpty);
    CountSnoc(cells, u);
    if InRange(c.value) && c.value.n !in st.seen && u == c.value.n {
      RegistryStepNewValue(cells, ignoreEmpty);
    } else if InRange(c.value) && c.value.n in st.seen && st.seen[c.value.n] !in st.registry && u != c.value.n {
      if st.seen[u] == st.seen[c.value.n] {
        SeenInjective(w, ignoreEmpty, u, c.value.n);
      }
    } else if InRange(c.value) && c.value.n in st.seen && u == c.value.n {
      CountPositive(w, u);
    }
  }

  /** The cell at index `i` holds an in-range value that occurs twice or more. */
  predicate Flagged(cells: seq<Cell>, i: int)
    requires 0 <= i < |cells|
  {
    InRange(cells[i].value) && Count(cells, cells[i].value.n) >= 2
  }

  /** The positions flagged `duplicate` are exactly the cells whose value repeats, once each. */
  ghost predicate DuplicateSpec(cells: seq<Cell>, dps: seq<Pos>) {
    Shuffle.NoDuplicates(dps) && FlaggedPositions(cells, dps)
  }

  /** `dps` holds exactly the positions of flagged cells. */
  ghost predicate FlaggedPositions(cells: seq<Cell>, dps: seq<Pos>) {
    forall p :: p in dps <==> exists i :: 0 <= i < |cells| && Flagged(cells, i) && PosOf(cells[i]) == p
  }

  /** Duplicate positions of a single entry. */
  lemma DuplicatePositionsOne(e: Entry)
    ensures DuplicatePositions([e]) == if e.issue == Duplicate then [Pos(e.row, e.col)] else []
  {
    assert [e][..0] == [];
  }

  /** What one step appends to the duplicate positions. */
  lemma StepDuplicates(st: ScanState, c: Cell, ignoreEmpty: bool)
    ensures var dps := DuplicatePositions(Step(st, c, ignoreEmpty).entries);
      var before := DuplicatePositions(st.entries);
      (!InRange(c.value) || c.value.n !in st.seen ==> dps == before) &&
      (InRange(c.value) && c.value.n in st.seen && st.seen[c.value.n] !in st.registry ==>
        dps == before + [st.seen[c.value.n], PosOf(c)]) &&
      (InRange(c.value) && c.value.n in st.seen && st.seen[c.value.n] in st.registry ==>
        dps == before + [PosOf(c)])
  {
    if !InRange(c.value) || c.value.n !in st.seen {
      StepNoDuplicate(st, c, ignoreEmpty);
    } else if st.seen[c.value.n] !in st.registry {
      StepSecondOccurrence(st, c, ignoreEmpty);
    } else {
      StepLaterOccurrence(st, c, ignoreEmpty);
    }
  }

  lemma StepNoDuplicate(st: ScanState, c: Cell, ignoreEmpty: bool)
    requires !InRange(c.value) || c.value.n !in st.seen
    ensures DuplicatePositions(Step(st, c, ignoreEmpty).entries) == DuplicatePositions(st.entries)
  {
    if IsBlank(c.value) {
      if !ignoreEmpty {
        var e := Entry(c.row, c.col, Empty);
        DuplicatePositionsOne(e);
        DuplicatePositionsAppend(st.entries, [e]);
      }
    } else if !InRange(c.value) {
      var e := Entry(c.row, c.col, Invalid);
      DuplicatePositionsOne(e);
      DuplicatePositionsAppend(st.entries, [e]);
    }
  }

  lemma StepSecondOccurrence(st: ScanState, c: Cell, ignoreEmpty: bool)
    requires InRange(c.value) && c.value.n in st.seen && st.seen[c.value.n] !in st.registry
    ensures DuplicatePositions(Step(st, c, ignoreEmpty).entries) ==
      DuplicatePositions(st.entries) + [st.seen[c.value.n], PosOf(c)]
  {
    var previous := st.seen[c.value.n];
    var e0 := Entry(previous.row, previous.col, Duplicate);
    var e := Entry(c.row, c.col, Duplicate);
    assert Step(st, c, ignoreEmpty).entries == st.entries + [e0, e];
    DuplicatePositionsOne(e0);
    DuplicatePositionsOne(e);
    DuplicatePositionsAppend([e0], [e]);
    assert [e0, e] == [e0] + [e];
    DuplicatePositionsAppend(st.entries, [e0, e]);
  }

  lemma StepLaterOccurrence(st: ScanState, c: Cell, ignoreEmpty: bool)
    requires InRange(c.value) && c.value.n in st.seen && st.seen[c.value.n] in st.registry
    ensures DuplicatePositions(Step(st, c, ignoreEmpty).entries) == DuplicatePositions(st.entries) + [PosOf(c)]
  {
    var e := Entry(c.row, c.col, Duplicate);
    assert Step(st, c, ignoreEmpty).entries == st.entries + [e];
    DuplicatePositionsOne(e);
    DuplicatePositionsAppend(st.entries, [e]);
  }

  lemma {:induction false} DuplicateInvariant(cells: seq<Cell>, ignoreEmpty: bool)
    requires DistinctCoords(cells)
    ensures DuplicateSpec(cells, DuplicatePositions(Scan(cells, ignoreEmpty).entries))
    decreases |cells|
  {
    if cells != [] {
      var n := |cells| - 1;
      var w := cells[..n];
      var c := cells[n];
      DuplicateInvariant(w, ignoreEmpty);
      var st := Scan(w, ignoreEmpty);
      StepDuplicates(st, c, ignoreEmpty);
      var before := DuplicatePositions(st.entries);
      if !InRange(c.value) || c.value.n !in st.seen {
        if InRange(c.value) {
          SeenKeys(w, ignoreEmpty, c.value.n);
        }
        FlaggedStable(cells);
        KeepSpec(cells, before);
      } else {
        var v := c.value.n;
        SeenInvariant(w, ignoreEmpty);
        RegistryInvariant(w, ignoreEmpty);
        var f := FirstIndex(w, v);
        assert st.seen[v] == PosOf(cells[f]);
        CountPositive(w, v);
        if st.seen[v] !in st.registry {
          FlaggedSecondOccurrence(cells, f);
          SecondOccurrenceSpec(cells, f, before);
        } else {
          FlaggedLaterOccurrence(cells);
          LaterOccurrenceSpec(cells, before);
        }
      }
    }
  }

  /** The new cell is not among the prefix's flagged positions. */
  lemma NewCellNotFlaggedBefore(cells: seq<Cell>, before: seq<Pos>)
    requires DistinctCoords(cells) && cells != []
    requires DuplicateSpec(cells[..|cells| - 1], before)
    ensures PosOf(cells[|cells| - 1]) !in before
  {
  }

  lemma KeepSpec(cells: seq<Cell>, before: seq<Pos>)
    requires DistinctCoords(cells) && cells != []
    requires DuplicateSpec(cells[..|cells| - 1], before)
    requires !Flagged(cells, |cells| - 1)
    requires forall i :: 0 <= i < |cells| - 1 ==> (Flagged(cells, i) <==> Flagged(cells[..|cells| - 1], i))
    ensures DuplicateSpec(cells, before)
  {
    var n := |cells| - 1;
    var w := cells[..n];
    forall p ensures p in before <==> exists i :: 0 <= i < |cells| && Flagged(cells, i) && PosOf(cells[i]) == p {
      if p in before {
        var i :| 0 <= i < n && Flagged(w, i) && PosOf(w[i]) == p;
        assert Flagged(cells, i) && PosOf(cells[i]) == p;
      }
      if exists i :: 0 <= i < |cells| && Flagged(cells, i) && PosOf(cells[i]) == p {
        var i :| 0 <= i < |cells| && Flagged(cells, i) && PosOf(cells[i]) == p;
        assert i < n && Flagged(w, i) && PosOf(w[i]) == p;
      }
    }
  }

  lemma SecondOccurrenceSpec(cells: seq<Cell>, f: int, before: seq<Pos>)
    requires DistinctCoords(cells) && 0 <= f < |cells| - 1
    requires DuplicateSpec(cells[..|cells| - 1], before)
    requires Flagged(cells, |cells| - 1) && Flagged(cells, f) && !Flagged(cells[..|cells| - 1], f)
    requires forall i :: 0 <= i < |cells| - 1 && i != f ==> (Flagged(cells, i) <==> Flagged(cells[..|cells| - 1], i))
    ensures DuplicateSpec(cells, before + [PosOf(cells[f]), PosOf(cells[|cells| - 1])])
  {
    var n := |cells| - 1;
    var w := cells[..n];
    NewCellNotFlaggedBefore(cells, before);
    assert PosOf(cells[f]) !in before by {
      if PosOf(cells[f]) in before {
        var i :| 0 <= i < n && Flagged(w, i) && PosOf(w[i]) == PosOf(cells[f]);
        CoordsDiffer(cells, i, f);
        assert false;
      }
    }
    CoordsDiffer(cells, f, n);
    AppendTwoNoDuplicates(before, PosOf(cells[f]), PosOf(cells[n]));
    SecondOccurrenceMembers(cells, f, before);
  }

  /** Appending two new, different elements keeps a sequence free of repeats. */
  lemma AppendTwoNoDuplicates<T>(a: seq<T>, x: T, y: T)
    requires Shuffle.NoDuplicates(a) && x !in a && y !in a && x != y
    ensures Shuffle.NoDuplicates(a + [x, y])
  {
    var b := a + [x, y];
    forall i, j | 0 <= i < j < |b| ensures b[i] != b[j] {
      if j < |a| {
        assert b[i] == a[i] && b[j] == a[j];
      }
    }
  }

  /** The membership half of `SecondOccurrenceSpec`. */
  lemma SecondOccurrenceMembers(cells: seq<Cell>, f: int, before: seq<Pos>)
    requires 0 <= f < |cells| - 1
    requires DuplicateSpec(cells[..|cells| - 1], before)
    requires Flagged(cells, |cells| - 1) && Flagged(cells, f)
    requires forall i :: 0 <= i < |cells| - 1 && i != f ==> (Flagged(cells, i) <==> Flagged(cells[..|cells| - 1], i))
    ensures FlaggedPositions(cells, before + [PosOf(cells[f]), PosOf(cells[|cells| - 1])])
  {
    var n := |cells| - 1;
    var w := cells[..n];
    var dps := before + [PosOf(cells[f]), PosOf(cells[n])];
    forall p ensures p in dps <==> exists i :: 0 <= i < |cells| && Flagged(cells, i) && PosOf(cells[i]) == p {
      if p in before {
        var i :| 0 <= i < n && Flagged(w, i) && PosOf(w[i]) == p;
        assert Flagged(cells, i) && PosOf(cells[i]) == p;
      }
      if exists i :: 0 <= i < |cells| && Flagged(cells, i) && PosOf(cells[i]) == p {
        var i :| 0 <= i < |cells| && Flagged(cells, i) && PosOf(cells[i]) == p;
        if i < n && i != f {
          assert Flagged(w, i) && PosOf(w[i]) == p;
        }
      }
    }
  }

  lemma LaterOccurrenceSpec(cells: seq<Cell>, before: seq<Pos>)
    requires DistinctCoords(cells) && cells != []
    requires DuplicateSpec(cells[..|cells| - 1], before)
    requires Flagged(cells, |cells| - 1)
    requires forall i :: 0 <= i < |cells| - 1 ==> (Flagged(cells, i) <==> Flagged(cells[..|cells| - 1], i))
    ensures DuplicateSpec(cells, before + [PosOf(cells[|cells| - 1])])
  {
    NewCellNotFlaggedBefore(cells, before);
    AppendOneNoDuplicates(before, PosOf(cells[|cells| - 1]));
    LaterOccurrenceMembers(cells, before);
  }

  /** Appending a new element keeps a sequence free of repeats. */
  lemma AppendOneNoDuplicates<T>(a: seq<T>, x: T)
    requires Shuffle.NoDuplicates(a) && x !in a
    ensures Shuffle.NoDuplicates(a + [x])
  {
    var b := a + [x];
    forall i, j | 0 <= i < j < |b| ensures b[i] != b[j] {
      if j < |a| {
        assert b[i] == a[i] && b[j] == a[j];
      }
    }
  }

  /** The membership half of `LaterOccurrenceSpec`. */
  lemma LaterOccurrenceMembers(cells: seq<Cell>, before: seq<Pos>)
    requires cells != []
    requires DuplicateSpec(cells[..|cells| - 1], before)
    requires Flagged(cells, |cells| - 1)
    requires forall i :: 0 <= i < |cells| - 1 ==> (Flagged(cells, i) <==> Flagged(cells[..|cells| - 1], i))
    ensures FlaggedPositions(cells, before + [PosOf(cells[|cells| - 1])])
  {
    var n := |cells| - 1;
    var w := cells[..n];
    var dps := before + [PosOf(cells[n])];
    forall p ensures p in dps <==> exists i :: 0 <= i < |cells| && Flagged(cells, i) && PosOf(cells[i]) == p {
      if p in before {
        var i :| 0 <= i < n && Flagged(w, i) && PosOf(w[i]) == p;
        assert Flagged(cells, i) && PosOf(cells[i]) == p;
      }
      if exists i :: 0 <= i < |cells| && Flagged(cells, i) && PosOf(cells[i]) == p {
        var i :| 0 <= i < |cells| && Flagged(cells, i) && PosOf(cells[i]) == p;
        if i < n {
          assert Flagged(w, i) && PosOf(w[i]) == p;
        }
      }
    }
  }

  /** A last cell that adds no repeat leaves every earlier cell's flag unchanged. */
  lemma FlaggedStable(cells: seq<Cell>)
    requires cells != []
    requires var c := cells[|cells| - 1];
      !InRange(c.value) || c.value !in Values(cells[..|cells| - 1])
    ensures !Flagged(cells, |cells| - 1)
    ensures forall i :: 0 <= i < |cells| - 1 ==> (Flagged(cells, i) <==> Flagged(cells[..|cells| - 1], i))
  {
    var n := |cells| - 1;
    var w := cells[..n];
    if InRange(cells[n].value) {
      CountSnoc(cells, cells[n].value.n);
    }
    forall i | 0 <= i < n ensures Flagged(cells, i) <==> Flagged(w, i) {
      if InRange(cells[i].value) {
        CountSnoc(cells, cells[i].value.n);
        assert Values(w)[i] == cells[i].value;
      }
    }
  }

  /** The second occurrence of a value flags itself and the first occurrence at index `f`. */
  lemma FlaggedSecondOccurrence(cells: seq<Cell>, f: int)
    requires 0 <= f < |cells| - 1
    requires var c := cells[|cells| - 1];
      InRange(c.value) && cells[f].value == c.value && Count(cells[..|cells| - 1], c.value.n) == 1
    ensures Flagged(cells, |cells| - 1) && Flagged(cells, f)
    ensures forall i :: 0 <= i < |cells| - 1 && i != f ==> (Flagged(cells, i) <==> Flagged(cells[..|cells| - 1], i))
  {
    var n := |cells| - 1;
    var w := cells[..n];
    CountSnoc(cells, cells[n].value.n);
    forall i | 0 <= i < n && i != f ensures Flagged(cells, i) <==> Flagged(w, i) {
      if InRange(cells[i].value) {
        CountSnoc(cells, cells[i].value.n);
        if cells[i].value == cells[n].value {
          RepeatInPrefix(w, i, f);
        }
      }
    }
  }

  /** Two cells holding the same value give it a count of two or more. */
  lemma RepeatInPrefix(w: seq<Cell>, i: int, f: int)
    requires 0 <= i < |w| && 0 <= f < |w| && i != f && w[i].value == w[f].value && w[i].value.Int?
    ensures Count(w, w[i].value.n) >= 2
  {
    var vs := Values(w);
    if i < f { RepeatCount(vs, i, f); } else { RepeatCount(vs, f, i); }
  }

  /** A third or later occurrence flags itself; earlier flags are unchanged. */
  lemma FlaggedLaterOccurrence(cells: seq<Cell>)
    requires cells != []
    requires var c := cells[|cells| - 1];
      InRange(c.value) && Count(cells[..|cells| - 1], c.value.n) >= 2
    ensures Flagged(cells, |cells| - 1)
    ensures forall i :: 0 <= i < |cells| - 1 ==> (Flagged(cells, i) <==> Flagged(cells[..|cells| - 1], i))
  {
    var n := |cells| - 1;
    CountSnoc(cells, cells[n].value.n);
    forall i | 0 <= i < n ensures Flagged(cells, i) <==> Flagged(cells[..n], i) {
      if InRange(cells[i].value) {
        CountSnoc(cells, cells[i].value.n);
      }
    }
  }

  // ---------------------------------------------------------------------------
  // What the result reports.

  /** A cell is reported `duplicate` exactly when its in-range value occurs twice or
      more in the unit, and no position is reported twice. */
  lemma DuplicatesReported(kind: string, index: int, cells: seq<Cell>, ignoreEmpty: bool, i: int)
    requires DistinctCoords(cells) && 0 <= i < |cells|
    ensures var dps := DuplicatePositions(ValidateUnit(kind, index, cells, ignoreEmpty).invalidPositions);
      Shuffle.NoDuplicates(dps) && (PosOf(cells[i]) in dps <==> Flagged(cells, i))
  {
    var dps := DuplicatePositions(Scan(cells, ignoreEmpty).entries);
    DuplicateInvariant(cells, ignoreEmpty);
    if PosOf(cells[i]) in dps {
      var j :| 0 <= j < |cells| && Flagged(cells, j) && PosOf(cells[j]) == PosOf(cells[i]);
    }
  }

  /** Reporting order: the second occurrence of a digit appends the first occurrence's
      `duplicate` entry and then its own, directly after the entries of the cells before it. */
  lemma SecondOccurrenceEntries(cells: seq<Cell>, ignoreEmpty: bool, i: int, j: int)
    requires DistinctCoords(cells) && 0 <= i < j < |cells|
    requires InRange(cells[j].value) && cells[i].value == cells[j].value
    requires forall k :: 0 <= k < j && k != i ==> cells[k].value != cells[j].value
    ensures Scan(cells[..j + 1], ignoreEmpty).entries ==
      Scan(cells[..j], ignoreEmpty).entries +
      [Entry(cells[i].row, cells[i].col, Duplicate), Entry(cells[j].row, cells[j].col, Duplicate)]
  {
    var w, v := cells[..j], cells[j].value.n;
    ScanSnoc(cells, j, ignoreEmpty);
    assert Values(w)[i] == Int(v);
    SeenInvariant(w, ignoreEmpty);
    assert FirstIndex(w, v) == i;
    OnlyOccurrence(w, i);
    RegistryInvariant(w, ignoreEmpty);
  }

  /** A third or later occurrence appends only its own `duplicate` entry. */
  lemma LaterOccurrenceEntries(cells: seq<Cell>, ignoreEmpty: bool, i1: int, i2: int, j: int)
    requires DistinctCoords(cells) && 0 <= i1 < i2 < j < |cells|
    requires InRange(cells[j].value) && cells[i1].value == cells[j].value && cells[i2].value == cells[j].value
    ensures Scan(cells[..j + 1], ignoreEmpty).entries ==
      Scan(cells[..j], ignoreEmpty).entries + [Entry(cells[j].row, cells[j].col, Duplicate)]
  {
    var w, v := cells[..j], cells[j].value.n;
    ScanSnoc(cells, j, ignoreEmpty);
    assert Values(w)[i1] == Int(v);
    SeenKeys(w, ignoreEmpty, v);
    RepeatInPrefix(w, i1, i2);
    RegistryInvariant(w, ignoreEmpty);
  }

  /** A value held by one cell only has multiplicity one. */
  lemma OnlyOccurrence(w: seq<Cell>, i: int)
    requires 0 <= i < |w| && w[i].value.Int?
    requires forall k :: 0 <= k < |w| && k != i ==> w[k].value != w[i].value
    ensures Count(w, w[i].value.n) == 1
  {
    var vs := Values(w);
    assert vs == vs[..i] + [vs[i]] + vs[i + 1..];
    assert vs[i] !in vs[..i];
    assert vs[i] !in vs[i + 1..];
  }

  lemma ScanSnoc(cells: seq<Cell>, k: int, ignoreEmpty: bool)
    requires 0 <= k < |cells|
    ensures Scan(cells[..k + 1], ignoreEmpty) == Step(Scan(cells[..k], ignoreEmpty), cells[k], ignoreEmpty)
  {
    assert cells[..k + 1][..k] == cells[..k];
  }

  /** Row 0 holding 5, 5, 5, 1, 2, 3, 4, 6, 7. */
  const TripleFiveRow: seq<Cell> := [Cell(0, 0, Int(5)), Cell(0, 1, Int(5)), Cell(0, 2, Int(5)),
    Cell(0, 3, Int(1)), Cell(0, 4, Int(2)), Cell(0, 5, Int(3)), Cell(0, 6, Int(4)), Cell(0, 7, Int(6)),
    Cell(0, 8, Int(7))]

  const TripleFiveEntries: seq<Entry> := [Entry(0, 0, Duplicate), Entry(0, 1, Duplicate), Entry(0, 2, Duplicate)]

  /** After the three 5s: the first is reported just before the second, the third alone. */
  lemma TripleFivePrefix()
    ensures Scan(TripleFiveRow[..3], false) == ScanState(map[5 := Pos(0, 0)], TripleFiveEntries, {Pos(0, 0)})
  {
    var cs := TripleFiveRow;
    var d := TripleFiveEntries;
    assert cs[..0] == [];
    ScanSnoc(cs, 0, false);
    assert Scan(cs[..1], false) == ScanState(map[5 := Pos(0, 0)], [], {});
    ScanSnoc(cs, 1, false);
    assert Scan(cs[..2], false) == ScanState(map[5 := Pos(0, 0)], d[..2], {Pos(0, 0)});
    ScanSnoc(cs, 2, false);
  }

  /** The six distinct values after the 5s add no entry. */
  lemma TripleFiveScan()
    ensures Scan(TripleFiveRow, false).entries == TripleFiveEntries
  {
    var cs := TripleFiveRow;
    TripleFivePrefix();
    ScanSnoc(cs, 3, false);
    ScanSnoc(cs, 4, false);
    ScanSnoc(cs, 5, false);
    ScanSnoc(cs, 6, false);
    ScanSnoc(cs, 7, false);
    ScanSnoc(cs, 8, false);
    assert cs[..9] == cs;
  }

  /** The row is invalid and its three 5s are reported in scan order. */
  lemma TripleFiveExample()
    ensures var res := ValidateUnit("row", 0, TripleFiveRow, false);
      !res.valid && res.invalidPositions == [Entry(0, 0, Duplicate), Entry(0, 1, Duplicate), Entry(0, 2, Duplicate)]
  {
    TripleFiveScan();
  }
}
