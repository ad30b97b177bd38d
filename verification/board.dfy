/**
  The 9x9 Sudoku board shared by both front-ends: a grid of integers in which
  0 marks an empty cell. This module fixes the geometry (rows, columns and
  3x3 boxes), the rule ("no value repeats among peers") and the notion of a
  complete unit (a permutation of the digits 1..9).
 */
module Board {

  /** Row-major 9x9 grid; `g[r][c]` is the cell at row `r`, column `c`. */
  type Grid = seq<seq<int>>

  predicate IsGrid(g: Grid) {
    |g| == 9 && forall r :: 0 <= r < 9 ==> |g[r]| == 9
  }

  predicate InBounds(r: int, c: int) {
    0 <= r < 9 && 0 <= c < 9
  }

  predicate IsDigit(v: int) {
    1 <= v <= 9
  }

  /** Index 0..8 of the 3x3 box holding cell (r, c), numbered row-major. */
  function BoxIndex(r: int, c: int): int {
    (r / 3) * 3 + c / 3
  }

  /** Row and column of the top-left cell of box `b`. */
  function BoxStartRow(b: int): int { (b / 3) * 3 }
  function BoxStartCol(b: int): int { (b % 3) * 3 }

  /** Two different cells that share a row, a column or a box. */
  predicate Peers(r1: int, c1: int, r2: int, c2: int) {
    (r1 != r2 || c1 != c2) && (r1 == r2 || c1 == c2 || BoxIndex(r1, c1) == BoxIndex(r2, c2))
  }

  /** No nonzero value occurs twice in any row, column or box. */
  predicate NoConflicts(g: Grid)
    requires IsGrid(g)
  {
    forall r1, c1, r2, c2 |
      0 <= r1 < 9 && 0 <= c1 < 9 && 0 <= r2 < 9 && 0 <= c2 < 9 &&
      Peers(r1, c1, r2, c2) && g[r1][c1] != 0 :: g[r1][c1] != g[r2][c2]
  }

  /** Every cell holds a digit 1..9. */
  predicate IsFull(g: Grid)
    requires IsGrid(g)
  {
    forall r, c | 0 <= r < 9 && 0 <= c < 9 :: IsDigit(g[r][c])
  }

  /** A finished, rule-abiding board. */
  predicate IsSolved(g: Grid) {
    IsGrid(g) && IsFull(g) && NoConflicts(g)
  }

  /** `s` is a solved board that keeps every nonzero cell of `g`. */
  predicate Completes(s: Grid, g: Grid) {
    IsSolved(s) && IsGrid(g) &&
    forall r, c | 0 <= r < 9 && 0 <= c < 9 && g[r][c] != 0 :: s[r][c] == g[r][c]
  }

  // ---------------------------------------------------------------------------
  // The 27 units as value sequences, in scan order.

  function Row(g: Grid, i: int): (u: seq<int>)
    requires IsGrid(g) && 0 <= i < 9
    ensures |u| == 9 && forall t :: 0 <= t < 9 ==> u[t] == g[i][t]
  {
    g[i]
  }

  function Column(g: Grid, j: int): (u: seq<int>)
    requires IsGrid(g) && 0 <= j < 9
    ensures |u| == 9 && forall t :: 0 <= t < 9 ==> u[t] == g[t][j]
  {
    seq(9, t requires 0 <= t < 9 => g[t][j])
  }

  /** Box `b` read row-major: position `t` is cell (start row + t/3, start col + t%3). */
  function Box(g: Grid, b: int): (u: seq<int>)
    requires IsGrid(g) && 0 <= b < 9
    ensures |u| == 9
    ensures forall t :: 0 <= t < 9 ==> u[t] == g[BoxStartRow(b) + t / 3][BoxStartCol(b) + t % 3]
  {
    seq(9, t requires 0 <= t < 9 => g[BoxStartRow(b) + t / 3][BoxStartCol(b) + t % 3])
  }

  predicate Distinct(u: seq<int>) {
    forall i, j :: 0 <= i < j < |u| ==> u[i] != u[j]
  }

  /** Nine digits, none repeated. */
  predicate IsCompleteUnit(u: seq<int>) {
    |u| == 9 && (forall i :: 0 <= i < |u| ==> IsDigit(u[i])) && Distinct(u)
  }

  /** All 27 units of `g` are complete. */
  predicate AllUnitsComplete(g: Grid)
    requires IsGrid(g)
  {
    forall k :: 0 <= k < 9 ==>
      IsCompleteUnit(Row(g, k)) && IsCompleteUnit(Column(g, k)) && IsCompleteUnit(Box(g, k))
  }

  const Digits: multiset<int> := multiset{1, 2, 3, 4, 5, 6, 7, 8, 9}

  // ---------------------------------------------------------------------------
  // Geometry facts.

  /** Cell (r, c) sits at position (r%3)*3 + c%3 of its box. */
  lemma BoxPosition(r: int, c: int)
    requires InBounds(r, c)
    ensures var b := BoxIndex(r, c); var t := (r % 3) * 3 + c % 3;
      0 <= b < 9 && 0 <= t < 9 &&
      BoxStartRow(b) + t / 3 == r && BoxStartCol(b) + t % 3 == c
  {
  }

  /** Box `b` cell by cell. */
  lemma BoxCells(g: Grid, b: int)
    requires IsGrid(g) && 0 <= b < 9
    ensures var r, c := BoxStartRow(b), BoxStartCol(b);
      Box(g, b) == [g[r][c], g[r][c + 1], g[r][c + 2],
                    g[r + 1][c], g[r + 1][c + 1], g[r + 1][c + 2],
                    g[r + 2][c], g[r + 2][c + 1], g[r + 2][c + 2]]
  {
  }

  /** Position `t` of box `b` is a cell whose box is `b`. */
  lemma BoxCellIndex(b: int, t: int)
    requires 0 <= b < 9 && 0 <= t < 9
    ensures InBounds(BoxStartRow(b) + t / 3, BoxStartCol(b) + t % 3)
    ensures BoxIndex(BoxStartRow(b) + t / 3, BoxStartCol(b) + t % 3) == b
  {
  }

  // ---------------------------------------------------------------------------
  // The peer rule and the unit view agree.

  /** The nine cells of box `k` are pairwise peers. */
  lemma BoxCellsArePeers(k: int, i: int, j: int)
    requires 0 <= k < 9 && 0 <= i < j < 9
    ensures Peers(BoxStartRow(k) + i / 3, BoxStartCol(k) + i % 3, BoxStartRow(k) + j / 3, BoxStartCol(k) + j % 3)
  {
    BoxCellIndex(k, i);
    BoxCellIndex(k, j);
  }

  lemma SolvedUnitsComplete(g: Grid, k: int)
    requires IsSolved(g) && 0 <= k < 9
    ensures IsCompleteUnit(Row(g, k)) && IsCompleteUnit(Column(g, k)) && IsCompleteUnit(Box(g, k))
  {
    var bx := Box(g, k);
    forall i, j | 0 <= i < j < 9 ensures bx[i] != bx[j] {
      BoxCellsArePeers(k, i, j);
      BoxCellIndex(k, i);
      BoxCellIndex(k, j);
    }
    forall i | 0 <= i < 9 ensures IsDigit(bx[i]) {
      BoxCellIndex(k, i);
    }
    var rw := Row(g, k);
    forall i, j | 0 <= i < j < 9 ensures rw[i] != rw[j] {
      assert Peers(k, i, k, j);
    }
    var cl := Column(g, k);
    forall i, j | 0 <= i < j < 9 ensures cl[i] != cl[j] {
      assert Peers(i, k, j, k);
    }
  }

  /** Position of cell (r, c) inside its box, read row-major. */
  function BoxOffset(r: int, c: int): int {
    (r % 3) * 3 + c % 3
  }

  lemma BoxAt(g: Grid, r: int, c: int)
    requires IsGrid(g) && InBounds(r, c)
    ensures 0 <= BoxIndex(r, c) < 9 && 0 <= BoxOffset(r, c) < 9
    ensures Box(g, BoxIndex(r, c))[BoxOffset(r, c)] == g[r][c]
  {
    BoxPosition(r, c);
  }

  lemma BoxOffsetInjective(r1: int, c1: int, r2: int, c2: int)
    requires InBounds(r1, c1) && InBounds(r2, c2) && (r1 != r2 || c1 != c2)
    requires BoxIndex(r1, c1) == BoxIndex(r2, c2)
    ensures BoxOffset(r1, c1) != BoxOffset(r2, c2)
  {
    BoxPosition(r1, c1);
    BoxPosition(r2, c2);
  }

  lemma BoxPeersDiffer(g: Grid, r1: int, c1: int, r2: int, c2: int)
    requires IsGrid(g) && InBounds(r1, c1) && InBounds(r2, c2) && (r1 != r2 || c1 != c2)
    requires BoxIndex(r1, c1) == BoxIndex(r2, c2)
    requires 0 <= BoxIndex(r1, c1) < 9 && IsCompleteUnit(Box(g, BoxIndex(r1, c1)))
    ensures g[r1][c1] != g[r2][c2]
  {
    var u := Box(g, BoxIndex(r1, c1));
    BoxAt(g, r1, c1);
    BoxAt(g, r2, c2);
    BoxOffsetInjective(r1, c1, r2, c2);
    var t1 := BoxOffset(r1, c1);
    var t2 := BoxOffset(r2, c2);
    if t1 < t2 { assert u[t1] != u[t2]; } else { assert u[t2] != u[t1]; }
  }

  /** Two peers in complete units hold different values. */
  lemma CompleteUnitsSeparatePeers(g: Grid, r1: int, c1: int, r2: int, c2: int)
    requires IsGrid(g) && AllUnitsComplete(g)
    requires InBounds(r1, c1) && InBounds(r2, c2) && Peers(r1, c1, r2, c2)
    ensures g[r1][c1] != g[r2][c2]
  {
    if r1 == r2 {
      var u := Row(g, r1);
      assert IsCompleteUnit(u);
      if c1 < c2 { assert u[c1] != u[c2]; } else { assert u[c2] != u[c1]; }
    } else if c1 == c2 {
      var u := Column(g, c1);
      assert IsCompleteUnit(u);
      if r1 < r2 { assert u[r1] != u[r2]; } else { assert u[r2] != u[r1]; }
    } else {
      BoxAt(g, r1, c1);
      assert IsCompleteUnit(Box(g, BoxIndex(r1, c1)));
      BoxPeersDiffer(g, r1, c1, r2, c2);
    }
  }

  /** A board is solved exactly when every row, column and box is a complete unit. */
  lemma SolvedIffUnitsComplete(g: Grid)
    requires IsGrid(g)
    ensures IsSolved(g) <==> AllUnitsComplete(g)
  {
    if IsSolved(g) {
      forall k | 0 <= k < 9
        ensures IsCompleteUnit(Row(g, k)) && IsCompleteUnit(Column(g, k)) && IsCompleteUnit(Box(g, k))
      {
        SolvedUnitsComplete(g, k);
      }
    }
    if AllUnitsComplete(g) {
      forall r, c | InBounds(r, c) ensures IsDigit(g[r][c]) {
        assert IsCompleteUnit(Row(g, r));
        assert Row(g, r)[c] == g[r][c];
      }
      forall r1, c1, r2, c2 | InBounds(r1, c1) && InBounds(r2, c2) && Peers(r1, c1, r2, c2) && g[r1][c1] != 0
        ensures g[r1][c1] != g[r2][c2]
      {
        CompleteUnitsSeparatePeers(g, r1, c1, r2, c2);
      }
    }
  }

  // ---------------------------------------------------------------------------
  // A complete unit is a permutation of the digits.

  lemma {:induction false} DistinctCount(u: seq<int>, x: int)
    requires Distinct(u)
    ensures multiset(u)[x] == if x in u then 1 else 0
  {
    if u != [] {
      var w := u[..|u| - 1];
      assert u == w + [u[|u| - 1]];
      assert Distinct(w);
      DistinctCount(w, x);
    }
  }

  /** Two equal entries of `u` give a multiplicity of at least two. */
  lemma RepeatCount<T>(u: seq<T>, i: int, j: int)
    requires 0 <= i < j < |u| && u[i] == u[j]
    ensures multiset(u)[u[i]] >= 2
  {
    assert u == u[..j] + [u[j]] + u[j + 1..];
    assert u[i] in u[..j];
  }

  /** Nine distinct digits cover every digit (pigeonhole). */
  lemma {:induction false} DistinctDigitsCover(u: seq<int>, remaining: set<int>)
    requires Distinct(u)
    requires forall i :: 0 <= i < |u| ==> u[i] in remaining
    ensures |u| <= |remaining|
  {
    if u != [] {
      var last := u[|u| - 1];
      var w := u[..|u| - 1];
      assert forall i :: 0 <= i < |w| ==> w[i] in remaining - {last} by {
        forall i | 0 <= i < |w| ensures w[i] in remaining - {last} {
          assert w[i] == u[i] && u[i] != u[|u| - 1];
        }
      }
      DistinctDigitsCover(w, remaining - {last});
    }
  }

  lemma DigitsMultiplicity(x: int)
    ensures Digits[x] == if IsDigit(x) then 1 else 0
  {
  }

  /** A complete unit holds every digit. */
  lemma CompleteUnitHasDigit(u: seq<int>, x: int)
    requires IsCompleteUnit(u) && IsDigit(x)
    ensures x in u
  {
    if x !in u {
      var others := {1, 2, 3, 4, 5, 6, 7, 8, 9} - {x};
      DigitsCard();
      assert |others| == 8;
      DistinctDigitsCover(u, others);
    }
  }

  lemma CompleteUnitCounts(u: seq<int>)
    requires IsCompleteUnit(u)
    ensures multiset(u) == Digits
  {
    forall x ensures multiset(u)[x] == Digits[x] {
      DistinctCount(u, x);
      DigitsMultiplicity(x);
      if IsDigit(x) {
        CompleteUnitHasDigit(u, x);
      }
    }
  }

  lemma DigitCountsComplete(u: seq<int>)
    requires multiset(u) == Digits
    ensures IsCompleteUnit(u)
  {
    assert |u| == |multiset(u)| == 9;
    forall i | 0 <= i < |u| ensures IsDigit(u[i]) {
      assert u[i] in multiset(u);
    }
    forall i, j | 0 <= i < j < |u| ensures u[i] != u[j] {
      if u[i] == u[j] {
        RepeatCount(u, i, j);
        assert false;
      }
    }
  }

  /** A complete unit holds each of 1..9 exactly once, and conversely. */
  lemma CompleteUnitIsPermutation(u: seq<int>)
    ensures IsCompleteUnit(u) <==> multiset(u) == Digits
  {
    if IsCompleteUnit(u) { CompleteUnitCounts(u); }
    if multiset(u) == Digits { DigitCountsComplete(u); }
  }

  /** Every digit occurs in `u`. */
  predicate HasEveryDigit(u: seq<int>) {
    forall d | 1 <= d <= 9 :: d in u
  }

  /** A sequence has no more distinct values than entries. */
  lemma {:induction false} ValueSetSize(u: seq<int>)
    ensures |set x | x in u| <= |u|
  {
    if u != [] {
      var w := u[..|u| - 1];
      ValueSetSize(w);
      assert (set x | x in u) == (set x | x in w) + {u[|u| - 1]} by {
        assert u == w + [u[|u| - 1]];
      }
    }
  }

  lemma DigitsCard()
    ensures |{1, 2, 3, 4, 5, 6, 7, 8, 9}| == 9
  {
  }

  lemma SubsetCard(a: set<int>, b: set<int>)
    requires a <= b
    ensures |a| <= |b|
  {
    assert b == a + (b - a);
  }

  /** A sequence holding every digit has at least nine entries. */
  lemma AtLeastNine(w: seq<int>)
    requires HasEveryDigit(w)
    ensures |w| >= 9
  {
    var digits := {1, 2, 3, 4, 5, 6, 7, 8, 9};
    var values := set x | x in w;
    ValueSetSize(w);
    DigitsCard();
    assert digits <= values by {
      forall d | d in digits ensures d in values {
        assert 1 <= d <= 9;
      }
    }
    SubsetCard(digits, values);
  }

  /** Removing entry `j` keeps every other entry. */
  lemma DropIndex(u: seq<int>, j: int)
    requires 0 <= j < |u|
    ensures |u[..j] + u[j + 1..]| == |u| - 1
    ensures forall k :: 0 <= k < |u| && k != j ==> u[k] in u[..j] + u[j + 1..]
  {
    var w := u[..j] + u[j + 1..];
    forall k | 0 <= k < |u| && k != j ensures u[k] in w {
      if k < j {
        assert w[k] == u[k];
      } else {
        assert w[k - 1] == u[k];
      }
    }
  }

  /** Nine entries holding every digit hold each digit exactly once (pigeonhole). */
  lemma EveryDigitComplete(u: seq<int>)
    requires |u| == 9 && HasEveryDigit(u)
    ensures IsCompleteUnit(u)
  {
    forall k | 0 <= k < 9 ensures IsDigit(u[k]) {
      if !IsDigit(u[k]) {
        var w := u[..k] + u[k + 1..];
        DropIndex(u, k);
        forall d | 1 <= d <= 9 ensures d in w {
          assert d in u;
          var m :| 0 <= m < 9 && u[m] == d;
        }
        AtLeastNine(w);
      }
    }
    forall i, j | 0 <= i < j < 9 ensures u[i] != u[j] {
      if u[i] == u[j] {
        var w := u[..j] + u[j + 1..];
        DropIndex(u, j);
        forall d | 1 <= d <= 9 ensures d in w {
          assert d in u;
          var m :| 0 <= m < 9 && u[m] == d;
          if m == j {
            assert u[i] in w;
          }
        }
        AtLeastNine(w);
      }
    }
  }
}
