/**
  How the single-page front-end (script.js) splits a board into validation
  payloads: `construirCargas` builds the 27 units (rows, then columns, then
  blocks) and `construirCargasParaCelula` the three units that meet at one
  edited cell. Payloads keep the script's own field names.
 */
module Partition {
  import opened Board

  /** `{ linha, coluna, valor }`: one cell with its coordinates and board value. */
  datatype Celula = Celula(linha: int, coluna: int, valor: int)

  /** `{ tipo, indice, celulas }`: one unit to validate. */
  datatype Carga = Carga(tipo: string, indice: int, celulas: seq<Celula>)

  const TipoLinha := "linha"
  const TipoColuna := "coluna"
  const TipoBloco := "bloco"

  /** Row `linha`, read left to right. */
  function CelulasLinha(m: Grid, linha: int): (cs: seq<Celula>)
    requires IsGrid(m) && 0 <= linha < 9
    ensures |cs| == 9
  {
    seq(9, coluna requires 0 <= coluna < 9 => Celula(linha, coluna, m[linha][coluna]))
  }

  /** Column `coluna`, read top to bottom. */
  function CelulasColuna(m: Grid, coluna: int): (cs: seq<Celula>)
    requires IsGrid(m) && 0 <= coluna < 9
    ensures |cs| == 9
  {
    seq(9, linha requires 0 <= linha < 9 => Celula(linha, coluna, m[linha][coluna]))
  }

  /** The 3x3 block with top-left cell (linhaInicial, colunaInicial): the two nested
      loops push its cells row by row. */
  function CelulasBloco(m: Grid, linhaInicial: int, colunaInicial: int): (cs: seq<Celula>)
    requires IsGrid(m) && 0 <= linhaInicial <= 6 && 0 <= colunaInicial <= 6
    ensures |cs| == 9
  {
    seq(9, t requires 0 <= t < 9 =>
      Celula(linhaInicial + t / 3, colunaInicial + t % 3, m[linhaInicial + t / 3][colunaInicial + t % 3]))
  }

  /** `construirCargas`: rows 0..8, then columns 0..8, then blocks 0..8. */
  function ConstruirCargas(m: Grid): (cargas: seq<Carga>)
    requires IsGrid(m)
    ensures |cargas| == 27
    ensures forall k :: 0 <= k < 27 ==> cargas[k].indice == k % 9 && |cargas[k].celulas| == 9
    ensures forall k :: 0 <= k < 27 ==>
      cargas[k].tipo == (if k < 9 then TipoLinha else if k < 18 then TipoColuna else TipoBloco)
  {
    seq(9, linha requires 0 <= linha < 9 => Carga(TipoLinha, linha, CelulasLinha(m, linha))) +
    seq(9, coluna requires 0 <= coluna < 9 => Carga(TipoColuna, coluna, CelulasColuna(m, coluna))) +
    seq(9, bloco requires 0 <= bloco < 9 =>
      Carga(TipoBloco, bloco, CelulasBloco(m, (bloco / 3) * 3, (bloco % 3) * 3)))
  }

  /** `construirCargasParaCelula`: the row, the column and the block of (linha, coluna). */
  function ConstruirCargasParaCelula(m: Grid, linha: int, coluna: int): (cargas: seq<Carga>)
    requires IsGrid(m) && InBounds(linha, coluna)
    ensures |cargas| == 3
    ensures cargas[0].tipo == TipoLinha && cargas[0].indice == linha
    ensures cargas[1].tipo == TipoColuna && cargas[1].indice == coluna
    ensures cargas[2].tipo == TipoBloco && cargas[2].indice == BoxIndex(linha, coluna)
    ensures forall k :: 0 <= k < 3 ==>
      |cargas[k].celulas| == 9 && Celula(linha, coluna, m[linha][coluna]) in cargas[k].celulas
  {
    var b := BoxIndex(linha, coluna);
    BlockOfCell(linha, coluna);
    CoveredByRow(m, linha, coluna, linha);
    CoveredByColumn(m, linha, coluna, coluna);
    CoveredByBlock(m, linha, coluna, b);
    [Carga(TipoLinha, linha, CelulasLinha(m, linha)),
     Carga(TipoColuna, coluna, CelulasColuna(m, coluna)),
     Carga(TipoBloco, (linha / 3) * 3 + coluna / 3, CelulasBloco(m, (linha / 3) * 3, (coluna / 3) * 3))]
  }

  // ---------------------------------------------------------------------------
  // What a payload means.

  function Valores(cs: seq<Celula>): (vs: seq<int>)
    ensures |vs| == |cs| && forall i :: 0 <= i < |cs| ==> vs[i] == cs[i].valor
  {
    seq(|cs|, i requires 0 <= i < |cs| => cs[i].valor)
  }

  /** Every cell sits on the board and carries the board's value there; no cell twice. */
  predicate Fiel(m: Grid, cs: seq<Celula>)
    requires IsGrid(m)
  {
    (forall i :: 0 <= i < |cs| ==> InBounds(cs[i].linha, cs[i].coluna) && cs[i].valor == m[cs[i].linha][cs[i].coluna]) &&
    (forall i, j :: 0 <= i < j < |cs| ==> (cs[i].linha, cs[i].coluna) != (cs[j].linha, cs[j].coluna))
  }

  /** Payload `k` of the 27: its label, its index, and the board unit its values spell. */
  lemma CargaMeaning(m: Grid, k: int)
    requires IsGrid(m) && 0 <= k < 27
    ensures |ConstruirCargas(m)[k].celulas| == 9 && Fiel(m, ConstruirCargas(m)[k].celulas)
    ensures k < 9 ==> LinhaCarga(m, ConstruirCargas(m)[k], k)
    ensures 9 <= k < 18 ==> ColunaCarga(m, ConstruirCargas(m)[k], k - 9)
    ensures 18 <= k ==> BlocoCarga(m, ConstruirCargas(m)[k], k - 18)
  {
    if k < 9 {
      LinhaMeaning(m, k);
    } else if k < 18 {
      ColunaMeaning(m, k - 9);
    } else {
      BlocoMeaning(m, k - 18);
    }
  }

  /** A payload for row `i`: every cell on row `i`, values spelling the board's row. */
  predicate LinhaCarga(m: Grid, carga: Carga, i: int)
    requires IsGrid(m) && 0 <= i < 9
  {
    carga.tipo == TipoLinha && carga.indice == i && Valores(carga.celulas) == Row(m, i) &&
    forall t :: 0 <= t < |carga.celulas| ==> carga.celulas[t].linha == i
  }

  predicate ColunaCarga(m: Grid, carga: Carga, j: int)
    requires IsGrid(m) && 0 <= j < 9
  {
    carga.tipo == TipoColuna && carga.indice == j && Valores(carga.celulas) == Column(m, j) &&
    forall t :: 0 <= t < |carga.celulas| ==> carga.celulas[t].coluna == j
  }

  predicate BlocoCarga(m: Grid, carga: Carga, b: int)
    requires IsGrid(m) && 0 <= b < 9
  {
    carga.tipo == TipoBloco && carga.indice == b && Valores(carga.celulas) == Box(m, b) &&
    forall t :: 0 <= t < |carga.celulas| ==> BoxIndex(carga.celulas[t].linha, carga.celulas[t].coluna) == b
  }

  lemma LinhaMeaning(m: Grid, i: int)
    requires IsGrid(m) && 0 <= i < 9
    ensures |ConstruirCargas(m)[i].celulas| == 9 && Fiel(m, ConstruirCargas(m)[i].celulas)
    ensures LinhaCarga(m, ConstruirCargas(m)[i], i)
  {
  }

  lemma ColunaMeaning(m: Grid, j: int)
    requires IsGrid(m) && 0 <= j < 9
    ensures |ConstruirCargas(m)[9 + j].celulas| == 9 && Fiel(m, ConstruirCargas(m)[9 + j].celulas)
    ensures ColunaCarga(m, ConstruirCargas(m)[9 + j], j)
  {
  }

  lemma BlocoMeaning(m: Grid, b: int)
    requires IsGrid(m) && 0 <= b < 9
    ensures |ConstruirCargas(m)[18 + b].celulas| == 9 && Fiel(m, ConstruirCargas(m)[18 + b].celulas)
    ensures BlocoCarga(m, ConstruirCargas(m)[18 + b], b)
  {
    var cs := ConstruirCargas(m)[18 + b].celulas;
    assert cs == CelulasBloco(m, BoxStartRow(b), BoxStartCol(b));
    forall t | 0 <= t < 9
      ensures InBounds(cs[t].linha, cs[t].coluna) && cs[t].valor == m[cs[t].linha][cs[t].coluna]
      ensures BoxIndex(cs[t].linha, cs[t].coluna) == b && cs[t].valor == Box(m, b)[t]
    {
      BoxCellIndex(b, t);
    }
    forall i, j | 0 <= i < j < 9
      ensures (cs[i].linha, cs[i].coluna) != (cs[j].linha, cs[j].coluna)
    {
      BlockCoordsInjective(i, j);
    }
    assert Valores(cs) == Box(m, b);
  }

  lemma BlockCoordsInjective(i: int, j: int)
    requires 0 <= i < j < 9
    ensures i / 3 != j / 3 || i % 3 != j % 3
  {
  }

  /** Coverage: cell (r, c) lies in exactly three of the 27 payloads, namely row r,
      column c and block BoxIndex(r, c). */
  lemma CellCoveredThreeTimes(m: Grid, r: int, c: int, k: int)
    requires IsGrid(m) && InBounds(r, c) && 0 <= k < 27
    ensures Celula(r, c, m[r][c]) in ConstruirCargas(m)[k].celulas <==>
      k == r || k == 9 + c || k == 18 + BoxIndex(r, c)
  {
    CargaAt(m, k);
    if k < 9 {
      CoveredByRow(m, r, c, k);
    } else if k < 18 {
      CoveredByColumn(m, r, c, k - 9);
    } else {
      BoxPosition(r, c);
      CoveredByBlock(m, r, c, k - 18);
    }
  }

  /** Payload `k` of the 27, by position in the list. */
  lemma CargaAt(m: Grid, k: int)
    requires IsGrid(m) && 0 <= k < 27
    ensures ConstruirCargas(m)[k] ==
      if k < 9 then Carga(TipoLinha, k, CelulasLinha(m, k))
      else if k < 18 then Carga(TipoColuna, k - 9, CelulasColuna(m, k - 9))
      else Carga(TipoBloco, k - 18, CelulasBloco(m, BoxStartRow(k - 18), BoxStartCol(k - 18)))
  {
  }

  lemma CoveredByRow(m: Grid, r: int, c: int, i: int)
    requires IsGrid(m) && InBounds(r, c) && 0 <= i < 9
    ensures Celula(r, c, m[r][c]) in CelulasLinha(m, i) <==> i == r
  {
    if i == r {
      assert CelulasLinha(m, i)[c] == Celula(r, c, m[r][c]);
    }
  }

  lemma CoveredByColumn(m: Grid, r: int, c: int, j: int)
    requires IsGrid(m) && InBounds(r, c) && 0 <= j < 9
    ensures Celula(r, c, m[r][c]) in CelulasColuna(m, j) <==> j == c
  {
    if j == c {
      assert CelulasColuna(m, j)[r] == Celula(r, c, m[r][c]);
    }
  }

  lemma CoveredByBlock(m: Grid, r: int, c: int, b: int)
    requires IsGrid(m) && InBounds(r, c) && 0 <= b < 9
    ensures Celula(r, c, m[r][c]) in CelulasBloco(m, BoxStartRow(b), BoxStartCol(b)) <==> b == BoxIndex(r, c)
  {
    var cs := CelulasBloco(m, BoxStartRow(b), BoxStartCol(b));
    if b == BoxIndex(r, c) {
      BoxPosition(r, c);
      BlocoAt(m, b, BoxOffset(r, c));
    } else {
      forall t | 0 <= t < 9 ensures cs[t] != Celula(r, c, m[r][c]) {
        BlocoAt(m, b, t);
        BoxCellIndex(b, t);
      }
    }
  }

  /** Cell `t` of the payload for block `b`. */
  lemma BlocoAt(m: Grid, b: int, t: int)
    requires IsGrid(m) && 0 <= b < 9 && 0 <= t < 9
    ensures var r, c := BoxStartRow(b) + t / 3, BoxStartCol(b) + t % 3;
      InBounds(r, c) && CelulasBloco(m, BoxStartRow(b), BoxStartCol(b))[t] == Celula(r, c, m[r][c])
  {
  }

  /** The three payloads for an edited cell are the matching payloads of the full split,
      and each holds that cell. */
  lemma ParaCelulaMatchesFull(m: Grid, linha: int, coluna: int)
    requires IsGrid(m) && InBounds(linha, coluna)
    ensures var full := ConstruirCargas(m);
      ConstruirCargasParaCelula(m, linha, coluna) == [full[linha], full[9 + coluna], full[18 + BoxIndex(linha, coluna)]]
    ensures forall k :: 0 <= k < 3 ==> Celula(linha, coluna, m[linha][coluna]) in ConstruirCargasParaCelula(m, linha, coluna)[k].celulas
  {
    var full := ConstruirCargas(m);
    var cargas := ConstruirCargasParaCelula(m, linha, coluna);
    var b := BoxIndex(linha, coluna);
    BlockOfCell(linha, coluna);
    CargaAt(m, linha);
    assert cargas[0] == full[linha];
    CargaAt(m, 9 + coluna);
    assert cargas[1] == full[9 + coluna];
    CargaAt(m, 18 + b);
    assert cargas[2] == full[18 + b];
  }

  /** The block of (linha, coluna) starts where the script's `Math.floor(x / 3) * 3` says. */
  lemma BlockOfCell(linha: int, coluna: int)
    requires InBounds(linha, coluna)
    ensures 0 <= BoxIndex(linha, coluna) < 9
    ensures BoxStartRow(BoxIndex(linha, coluna)) == (linha / 3) * 3
    ensures BoxStartCol(BoxIndex(linha, coluna)) == (coluna / 3) * 3
  {
  }
}
