/**
  The board generator of the single-page front-end (script.js): a fixed
  pattern `(l*3 + l/3 + c) % 9 + 1` read through a shuffled row order and a
  shuffled column order, each of which permutes the three bands (stacks) and
  the three rows (columns) inside every band. Clues are then hidden cell by
  cell with a `Math.random()` draw per cell. Every draw is a parameter.
 */
module FormulaGenerator {
  import opened Board
  import Shuffle

  /** `const base = [0, 1, 2]`. */
  const Base: seq<int> := [0, 1, 2]

  /** Draws for one call of the line-order expression: `outer` for the shuffle of the
      groups, `inner[g]` for the shuffle made while expanding the group at position `g`. */
  datatype BandDraws = BandDraws(outer: seq<int>, inner: seq<seq<int>>)

  predicate ValidBandDraws(d: BandDraws) {
    Shuffle.ValidDraws(d.outer, 3) && |d.inner| == 3 &&
    forall g :: 0 <= g < 3 ==> Shuffle.ValidDraws(d.inner[g], 3)
  }

  /** `embaralhar(base).flatMap((grupo) => embaralhar(base).map((x) => grupo * 3 + x))`. */
  function BandOrder(d: BandDraws): (p: seq<int>)
    requires ValidBandDraws(d)
    ensures |p| == 9
  {
    var grupos := Shuffle.FisherYates(Base, d.outer);
    seq(9, t requires 0 <= t < 9 => grupos[t / 3] * 3 + Shuffle.FisherYates(Base, d.inner[t / 3])[t % 3])
  }

  /** A permutation of 0..8 that keeps every aligned triple {3k, 3k+1, 3k+2} together. */
  predicate BandPreserving(p: seq<int>) {
    |p| == 9 && (forall t :: 0 <= t < 9 ==> 0 <= p[t] < 9) && Shuffle.NoDuplicates(p) &&
    forall s, t :: 0 <= s < 9 && 0 <= t < 9 && s / 3 == t / 3 ==> p[s] / 3 == p[t] / 3
  }

  /** `padrao(linha, coluna)`. */
  function Pattern(l: int, c: int): int {
    (l * 3 + l / 3 + c) % 9
  }

  /** The board filled by the two nested `forEach` loops. */
  function FormulaBoard(linhas: seq<int>, colunas: seq<int>): (g: Grid)
    requires |linhas| == 9 && |colunas| == 9
    ensures IsGrid(g)
  {
    seq(9, i requires 0 <= i < 9 => seq(9, j requires 0 <= j < 9 => Pattern(linhas[i], colunas[j]) + 1))
  }

  /** `construirTabuleiroResolvido`: a solved board for every outcome of the six shuffles. */
  function ConstruirTabuleiroResolvido(dl: BandDraws, dc: BandDraws): (g: Grid)
    requires ValidBandDraws(dl) && ValidBandDraws(dc)
    ensures IsSolved(g)
  {
    var linhas := BandOrder(dl);
    var colunas := BandOrder(dc);
    BandOrderPreserving(dl);
    BandOrderPreserving(dc);
    FormulaBoardSolved(linhas, colunas);
    FormulaBoard(linhas, colunas)
  }

  // ---------------------------------------------------------------------------
  // The shuffled orders keep bands together.

  lemma ShuffledBase(d: seq<int>)
    requires Shuffle.ValidDraws(d, 3)
    ensures var q := Shuffle.FisherYates(Base, d);
      |q| == 3 && (forall i :: 0 <= i < 3 ==> 0 <= q[i] < 3) && Shuffle.NoDuplicates(q)
  {
    var q := Shuffle.FisherYates(Base, d);
    PermutationInRange(Base, q, 3);
    assert Shuffle.NoDuplicates(Base);
    Shuffle.PermutationKeepsNoDuplicates(Base, q);
  }

  /** A rearrangement of values in 0..n-1 stays in 0..n-1. */
  lemma PermutationInRange(a: seq<int>, b: seq<int>, n: int)
    requires multiset(a) == multiset(b) && forall i :: 0 <= i < |a| ==> 0 <= a[i] < n
    ensures forall i :: 0 <= i < |b| ==> 0 <= b[i] < n
  {
    forall i | 0 <= i < |b| ensures 0 <= b[i] < n {
      assert b[i] in multiset(b);
      assert b[i] in a;
    }
  }

  lemma BandOrderPreserving(d: BandDraws)
    requires ValidBandDraws(d)
    ensures BandPreserving(BandOrder(d))
  {
    var p := BandOrder(d);
    var grupos := Shuffle.FisherYates(Base, d.outer);
    forall t | 0 <= t < 9 ensures 0 <= p[t] < 9 && p[t] / 3 == grupos[t / 3] {
      BandOrderAt(d, t);
    }
    forall s, t | 0 <= s < t < 9 ensures p[s] != p[t] {
      BandOrderDistinct(d, s, t);
    }
  }

  lemma BandOrderDistinct(d: BandDraws, s: int, t: int)
    requires ValidBandDraws(d) && 0 <= s < t < 9
    ensures BandOrder(d)[s] != BandOrder(d)[t]
  {
    var grupos := Shuffle.FisherYates(Base, d.outer);
    BandOrderAt(d, s);
    BandOrderAt(d, t);
    if BandOrder(d)[s] == BandOrder(d)[t] {
      ShuffledBase(d.outer);
      assert grupos[s / 3] == grupos[t / 3];
      assert s / 3 == t / 3;
      ShuffledBase(d.inner[s / 3]);
    }
  }

  /** Entry `t` of the order: group `grupos[t/3]`, offset taken from the inner shuffle. */
  lemma BandOrderAt(d: BandDraws, t: int)
    requires ValidBandDraws(d) && 0 <= t < 9
    ensures var grupos := Shuffle.FisherYates(Base, d.outer);
      var q := Shuffle.FisherYates(Base, d.inner[t / 3]);
      BandOrder(d)[t] == grupos[t / 3] * 3 + q[t % 3] &&
      0 <= q[t % 3] < 3 && 0 <= BandOrder(d)[t] < 9 && BandOrder(d)[t] / 3 == grupos[t / 3]
  {
    var grupos := Shuffle.FisherYates(Base, d.outer);
    var q := Shuffle.FisherYates(Base, d.inner[t / 3]);
    ShuffledBase(d.outer);
    ShuffledBase(d.inner[t / 3]);
    var g, x := grupos[t / 3], q[t % 3];
    assert 0 <= g < 3 && 0 <= x < 3;
    Digit3(g, x);
  }

  lemma Digit3(g: int, x: int)
    requires 0 <= g < 3 && 0 <= x < 3
    ensures 0 <= g * 3 + x < 9 && (g * 3 + x) / 3 == g
  {
  }

  // ---------------------------------------------------------------------------
  // The pattern separates peers.

  /** The pattern rewritten without the band offset: `l*3 + l/3 = 9*(l/3) + 3*(l%3) + l/3`. */
  function Shifted(l: int): int {
    3 * (l % 3) + l / 3
  }

  lemma PatternShifted(l: int, c: int)
    requires 0 <= l < 9 && 0 <= c < 9
    ensures Pattern(l, c) == (Shifted(l) + c) % 9 && 0 <= Shifted(l) < 9
  {
    assert l * 3 == 9 * (l / 3) + 3 * (l % 3);
  }

  lemma ShiftedInjective(l1: int, l2: int)
    requires 0 <= l1 < 9 && 0 <= l2 < 9 && l1 != l2
    ensures Shifted(l1) != Shifted(l2)
  {
  }

  /** Two values closer than 9 with the same remainder are equal. */
  lemma CloseResidues(x: int, y: int)
    requires 0 <= x && 0 <= y && x - 9 < y < x + 9 && x % 9 == y % 9
    ensures x == y
  {
  }

  /** Two different (line, column) pairs in the same line, the same column, or the same
      band and stack get different pattern values. */
  lemma PatternSeparates(l1: int, c1: int, l2: int, c2: int)
    requires 0 <= l1 < 9 && 0 <= c1 < 9 && 0 <= l2 < 9 && 0 <= c2 < 9 && (l1 != l2 || c1 != c2)
    requires l1 == l2 || c1 == c2 || (l1 / 3 == l2 / 3 && c1 / 3 == c2 / 3)
    ensures Pattern(l1, c1) != Pattern(l2, c2)
  {
    PatternShifted(l1, c1);
    PatternShifted(l2, c2);
    if Pattern(l1, c1) == Pattern(l2, c2) {
      if l1 == l2 || c1 == c2 {
        if l1 != l2 {
          ShiftedInjective(l1, l2);
        }
        CloseResidues(Shifted(l1) + c1, Shifted(l2) + c2);
        assert false;
      } else {
        assert Shifted(l1) - Shifted(l2) == 3 * (l1 % 3 - l2 % 3);
        assert c1 - c2 == c1 % 3 - c2 % 3;
        CloseResidues(Shifted(l1) + c1, Shifted(l2) + c2);
        assert false;
      }
    }
  }

  lemma SameBox(r1: int, c1: int, r2: int, c2: int)
    requires InBounds(r1, c1) && InBounds(r2, c2) && BoxIndex(r1, c1) == BoxIndex(r2, c2)
    ensures r1 / 3 == r2 / 3 && c1 / 3 == c2 / 3
  {
  }

  /** For every pair of band-preserving orders the formula board is solved. */
  lemma FormulaBoardSolved(linhas: seq<int>, colunas: seq<int>)
    requires BandPreserving(linhas) && BandPreserving(colunas)
    ensures IsSolved(FormulaBoard(linhas, colunas))
  {
    var g := FormulaBoard(linhas, colunas);
    forall r1, c1, r2, c2 |
      0 <= r1 < 9 && 0 <= c1 < 9 && 0 <= r2 < 9 && 0 <= c2 < 9 && Peers(r1, c1, r2, c2) && g[r1][c1] != 0
      ensures g[r1][c1] != g[r2][c2]
    {
      FormulaPeersDiffer(linhas, colunas, r1, c1, r2, c2);
    }
  }

  lemma FormulaPeersDiffer(linhas: seq<int>, colunas: seq<int>, r1: int, c1: int, r2: int, c2: int)
    requires BandPreserving(linhas) && BandPreserving(colunas)
    requires InBounds(r1, c1) && InBounds(r2, c2) && Peers(r1, c1, r2, c2)
    ensures FormulaBoard(linhas, colunas)[r1][c1] != FormulaBoard(linhas, colunas)[r2][c2]
  {
    var l1, l2, k1, k2 := linhas[r1], linhas[r2], colunas[c1], colunas[c2];
    assert r1 != r2 ==> l1 != l2 by {
      if r1 < r2 { assert linhas[r1] != linhas[r2]; } else if r2 < r1 { assert linhas[r2] != linhas[r1]; }
    }
    assert c1 != c2 ==> k1 != k2 by {
      if c1 < c2 { assert colunas[c1] != colunas[c2]; } else if c2 < c1 { assert colunas[c2] != colunas[c1]; }
    }
    if r1 != r2 && c1 != c2 {
      SameBox(r1, c1, r2, c2);
    }
    PatternSeparates(l1, k1, l2, k2);
  }

  // ---------------------------------------------------------------------------
  // Hiding clues.

  /** One `Math.random()` value per cell, in the order the loops consume them. */
  predicate IsDrawGrid(sorteios: seq<seq<real>>) {
    |sorteios| == 9 && forall i :: 0 <= i < 9 ==> |sorteios[i]| == 9
  }

  /** `mascararTabuleiro`: a copy in which the cells whose draw falls below
      `proporcaoOculta` are set to 0. */
  function MascararTabuleiro(solucao: Grid, sorteios: seq<seq<real>>, proporcaoOculta: real): (mascarado: Grid)
    requires IsGrid(solucao) && IsDrawGrid(sorteios)
    ensures IsGrid(mascarado)
    ensures forall i, j | 0 <= i < 9 && 0 <= j < 9 :: mascarado[i][j] == 0 || mascarado[i][j] == solucao[i][j]
  {
    seq(9, i requires 0 <= i < 9 => seq(9, j requires 0 <= j < 9 =>
      if sorteios[i][j] < proporcaoOculta then 0 else solucao[i][j]))
  }

  /** The solution completes the masked board, and on a full solution a cell is blank
      exactly when its draw fell below the proportion. */
  lemma MaskedBoardIsPuzzle(solucao: Grid, sorteios: seq<seq<real>>, proporcaoOculta: real)
    requires IsSolved(solucao) && IsDrawGrid(sorteios)
    ensures var mascarado := MascararTabuleiro(solucao, sorteios, proporcaoOculta);
      Completes(solucao, mascarado) &&
      forall i, j | 0 <= i < 9 && 0 <= j < 9 :: mascarado[i][j] == 0 <==> sorteios[i][j] < proporcaoOculta
  {
  }

  /** `Math.random()` lies in [0, 1): a proportion of 0 hides nothing, a proportion of 1
      hides everything. */
  lemma MaskExtremes(solucao: Grid, sorteios: seq<seq<real>>)
    requires IsGrid(solucao) && IsDrawGrid(sorteios)
    requires forall i, j | 0 <= i < 9 && 0 <= j < 9 :: 0.0 <= sorteios[i][j] < 1.0
    ensures MascararTabuleiro(solucao, sorteios, 0.0) == solucao
    ensures forall i, j | 0 <= i < 9 && 0 <= j < 9 :: MascararTabuleiro(solucao, sorteios, 1.0)[i][j] == 0
  {
    var mascarado := MascararTabuleiro(solucao, sorteios, 0.0);
    forall i | 0 <= i < 9 ensures mascarado[i] == solucao[i] {
    }
  }

  /** `{ pistas, solucao }` of `gerarDesafioAleatorio` (the random name is left out). */
  datatype Desafio = Desafio(pistas: Grid, solucao: Grid)

  /** `gerarDesafioAleatorio`: a solved board and its clues, hidden with proportion 0.62. */
  function GerarDesafioAleatorio(dl: BandDraws, dc: BandDraws, sorteios: seq<seq<real>>): (d: Desafio)
    requires ValidBandDraws(dl) && ValidBandDraws(dc) && IsDrawGrid(sorteios)
    ensures IsSolved(d.solucao) && Completes(d.solucao, d.pistas)
  {
    var solucao := ConstruirTabuleiroResolvido(dl, dc);
    MaskedBoardIsPuzzle(solucao, sorteios, 0.62);
    Desafio(MascararTabuleiro(solucao, sorteios, 0.62), solucao)
  }
}
