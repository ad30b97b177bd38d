/**
  The full-board validation of the single-page front-end (script.js
  `validarTabuleiro` and `tratarAlteracaoCelula`): each payload is posted to
  a worker running validatorWorker.js, and the answers are folded into a
  verdict. The page and the worker disagree on field names: the page posts
  `{ tipo, indice, celulas }` and reads `valido` / `posicoesInvalidas`, the
  worker destructures `{ kind, index, cells, ignoreEmpty }` and answers
  `{ kind, index, valid, invalidPositions }`. This module models the
  exchange as written, and the exchange with matching field names.
 */
module Pipeline {
  import opened Board
  import opened Wrappers
  import Partition
  import UnitValidator
  import ScriptFrontEnd

  /** A posted message: the property names it carries and the payload behind them. */
  datatype Mensagem = Mensagem(chaves: set<string>, carga: Partition.Carga, ignorarVazios: bool)

  /** The outcome shown in the status banner: a verdict, or the catch branch. */
  datatype Desfecho = Veredito(todasValidas: bool, celulasProblematicas: seq<ScriptFrontEnd.Posicao>) | ErroThreads

  /** `worker.postMessage(carga)`: the payload object as built by `construirCargas`. */
  function MensagemComoEscrita(carga: Partition.Carga): (msg: Mensagem)
    ensures msg.chaves == {"tipo", "indice", "celulas"} && msg.carga == carga && !msg.ignorarVazios
  {
    Mensagem({"tipo", "indice", "celulas"}, carga, false)
  }

  /** The message with the names the worker destructures. */
  function MensagemCorrigida(carga: Partition.Carga, ignorarVazios: bool): (msg: Mensagem)
    ensures "cells" in msg.chaves && msg.carga == carga && msg.ignorarVazios == ignorarVazios
  {
    Mensagem({"kind", "index", "cells", "ignoreEmpty"}, carga, ignorarVazios)
  }

  /** A payload cell as the worker reads it (`cell.row`, `cell.col`, `cell.value`). */
  function ParaCelula(c: Partition.Celula): (cell: UnitValidator.Cell)
    ensures cell.row == c.linha && cell.col == c.coluna && cell.value == UnitValidator.Int(c.valor)
  {
    UnitValidator.Cell(c.linha, c.coluna, UnitValidator.Int(c.valor))
  }

  function ParaCelulas(cs: seq<Partition.Celula>): (cells: seq<UnitValidator.Cell>)
    ensures |cells| == |cs| && forall i :: 0 <= i < |cs| ==> cells[i] == ParaCelula(cs[i])
  {
    seq(|cs|, i requires 0 <= i < |cs| => ParaCelula(cs[i]))
  }

  /** One worker run. Without a `cells` property the destructured `cells` is undefined,
      `cells.forEach` throws, and `onerror` rejects the promise: None. An absent
      `ignoreEmpty` defaults to false. */
  function Worker(msg: Mensagem): (r: Option<UnitValidator.UnitResult>)
    ensures r.None? <==> "cells" !in msg.chaves
  {
    if "cells" !in msg.chaves then None
    else
      var ignoreEmpty := "ignoreEmpty" in msg.chaves && msg.ignorarVazios;
      Some(UnitValidator.ValidateUnit(msg.carga.tipo, msg.carga.indice, ParaCelulas(msg.carga.celulas), ignoreEmpty))
  }

  /** `Promise.all`: every worker answers, or the whole batch rejects. */
  function ExecutarTodos(msgs: seq<Mensagem>): (r: Option<seq<UnitValidator.UnitResult>>)
    ensures r.None? <==> exists k :: 0 <= k < |msgs| && "cells" !in msgs[k].chaves
    ensures r.Some? ==> |r.value| == |msgs| && forall k :: 0 <= k < |msgs| ==> Some(r.value[k]) == Worker(msgs[k])
    decreases |msgs|
  {
    if msgs == [] then Some([])
    else
      var n := |msgs| - 1;
      match (ExecutarTodos(msgs[..n]), Worker(msgs[n]))
      case (Some(rs), Some(r)) =>
        assert forall k :: 0 <= k < n ==> msgs[..n][k] == msgs[k];
        Some(rs + [r])
      case (None, _) =>
        var k :| 0 <= k < n && "cells" !in msgs[..n][k].chaves;
        assert msgs[k] == msgs[..n][k];
        None
      case (_, None) => None
  }

  /** The issue names the page tests for (`"duplicada"`, `"vazia"`, anything else). */
  function Problema(issue: UnitValidator.Issue): string {
    match issue
    case Duplicate => "duplicada"
    case Empty => "vazia"
    case Invalid => "invalida"
  }

  function ParaPosicoes(es: seq<UnitValidator.Entry>): (ps: seq<ScriptFrontEnd.Posicao>)
    ensures |ps| == |es|
    ensures forall i :: 0 <= i < |es| ==> ps[i] == ScriptFrontEnd.Posicao(es[i].row, es[i].col, Problema(es[i].issue))
  {
    seq(|es|, i requires 0 <= i < |es| => ScriptFrontEnd.Posicao(es[i].row, es[i].col, Problema(es[i].issue)))
  }

  /** A worker answer under the page's names. */
  function ParaResultado(r: UnitValidator.UnitResult): (res: ScriptFrontEnd.Resultado)
    ensures res.valido == r.valid && res.posicoesInvalidas == ParaPosicoes(r.invalidPositions)
  {
    ScriptFrontEnd.Resultado(r.valid, ParaPosicoes(r.invalidPositions))
  }

  // ---------------------------------------------------------------------------
  // As written.

  /** `validarTabuleiro` as written: the 27 payloads are posted under the page's names. */
  method ValidarTabuleiroComoEscrito(m: Grid) returns (d: Desfecho)
    requires IsGrid(m)
    ensures d == ErroThreads
  {
    var cargas := Partition.ConstruirCargas(m);
    var msgs := seq(27, k requires 0 <= k < 27 => MensagemComoEscrita(cargas[k]));
    AsWrittenAlwaysErrors(m);
    match ExecutarTodos(msgs)
    case None =>
      d := ErroThreads;
    case Some(_) =>
      // the batch never resolves: no payload carries `cells`
      assert false;
  }

  /** As written, no payload carries `cells`, so every full-board check ends in the catch
      branch, whatever the board. */
  lemma AsWrittenAlwaysErrors(m: Grid)
    requires IsGrid(m)
    ensures ExecutarTodos(seq(27, k requires 0 <= k < 27 => MensagemComoEscrita(Partition.ConstruirCargas(m)[k]))).None?
  {
    var msgs := seq(27, k requires 0 <= k < 27 => MensagemComoEscrita(Partition.ConstruirCargas(m)[k]));
    assert "cells" !in msgs[0].chaves;
  }

  /** The live check of one edited cell posts `{ ...carga, ignorarVazios: true }`, still
      without `cells`: it also always ends in the catch branch. */
  lemma AsWrittenLiveEditErrors(m: Grid, linha: int, coluna: int)
    requires IsGrid(m) && InBounds(linha, coluna)
    ensures ExecutarTodos(seq(3, k requires 0 <= k < 3 =>
      var msg := MensagemComoEscrita(Partition.ConstruirCargasParaCelula(m, linha, coluna)[k]);
      Mensagem(msg.chaves + {"ignorarVazios"}, msg.carga, true))).None?
  {
    var msgs := seq(3, k requires 0 <= k < 3 =>
      var msg := MensagemComoEscrita(Partition.ConstruirCargasParaCelula(m, linha, coluna)[k]);
      Mensagem(msg.chaves + {"ignorarVazios"}, msg.carga, true));
    assert "cells" !in msgs[0].chaves;
  }

  // ---------------------------------------------------------------------------
  // Corrected: the payloads carry the worker's names.

  /** `validarTabuleiro` with matching field names. */
  method ValidarTabuleiro(m: Grid) returns (d: Desfecho)
    requires IsGrid(m)
    ensures d.Veredito?
    ensures d.todasValidas <==> IsSolved(m)
    ensures forall p :: p in d.celulasProblematicas <==>
      exists k :: 0 <= k < 27 && p in Resposta(m, k).posicoesInvalidas && !Resposta(m, k).valido
  {
    var resultados := ExecutarCargas(m);
    var todasValidas, celulas := ScriptFrontEnd.Agregar(resultados);
    d := Veredito(todasValidas, celulas);
    VerdictIffSolved(m);
    forall p ensures p in celulas <==>
      exists k :: 0 <= k < 27 && p in Resposta(m, k).posicoesInvalidas && !Resposta(m, k).valido
    {
      ScriptFrontEnd.ProblemasMembership(resultados, p);
    }
  }

  /** The 27 payloads with matching field names, sent to the workers and read back. */
  method ExecutarCargas(m: Grid) returns (resultados: seq<ScriptFrontEnd.Resultado>)
    requires IsGrid(m)
    ensures |resultados| == 27 && forall k :: 0 <= k < 27 ==> resultados[k] == Resposta(m, k)
  {
    var cargas := Partition.ConstruirCargas(m);
    var msgs := seq(27, k requires 0 <= k < 27 => MensagemCorrigida(cargas[k], false));
    var rs := ExecutarTodos(msgs).value;
    resultados := seq(27, i requires 0 <= i < 27 => ParaResultado(rs[i]));
  }

  /** The answer for payload `k` under the page's names. */
  function Resposta(m: Grid, k: int): (res: ScriptFrontEnd.Resultado)
    requires IsGrid(m) && 0 <= k < 27
    ensures res.valido == UnitValidator.ValidateUnit(Partition.ConstruirCargas(m)[k].tipo,
      Partition.ConstruirCargas(m)[k].indice, ParaCelulas(Partition.ConstruirCargas(m)[k].celulas), false).valid
  {
    ParaResultado(Worker(MensagemCorrigida(Partition.ConstruirCargas(m)[k], false)).value)
  }

  /** Every answer is valid exactly when the board is solved. */
  lemma VerdictIffSolved(m: Grid)
    requires IsGrid(m)
    ensures (forall k :: 0 <= k < 27 ==> Resposta(m, k).valido) <==> IsSolved(m)
  {
    forall k | 0 <= k < 27
      ensures Resposta(m, k).valido <==> IsCompleteUnit(UnitOf(m, k))
    {
      RespostaMeaning(m, k);
    }
    SolvedIffUnitsComplete(m);
    if forall k :: 0 <= k < 27 ==> Resposta(m, k).valido {
      forall i | 0 <= i < 9
        ensures IsCompleteUnit(Row(m, i)) && IsCompleteUnit(Column(m, i)) && IsCompleteUnit(Box(m, i))
      {
        assert UnitOf(m, i) == Row(m, i) && UnitOf(m, 9 + i) == Column(m, i) && UnitOf(m, 18 + i) == Box(m, i);
      }
    }
  }

  /** The board unit payload `k` spells: rows, then columns, then boxes. */
  function UnitOf(m: Grid, k: int): seq<int>
    requires IsGrid(m) && 0 <= k < 27
  {
    if k < 9 then Row(m, k) else if k < 18 then Column(m, k - 9) else Box(m, k - 18)
  }

  /** Payload `k` is valid exactly when its unit holds each digit once. */
  lemma RespostaMeaning(m: Grid, k: int)
    requires IsGrid(m) && 0 <= k < 27
    ensures Resposta(m, k).valido <==> IsCompleteUnit(UnitOf(m, k))
  {
    var carga := Partition.ConstruirCargas(m)[k];
    var cells := ParaCelulas(carga.celulas);
    CargaSpellsUnit(m, k);
    AsIntsOfPayload(carga.celulas);
  }

  /** The values of payload `k` spell unit `k` of the board. */
  lemma CargaSpellsUnit(m: Grid, k: int)
    requires IsGrid(m) && 0 <= k < 27
    ensures |Partition.ConstruirCargas(m)[k].celulas| == 9
    ensures Partition.Valores(Partition.ConstruirCargas(m)[k].celulas) == UnitOf(m, k)
  {
    Partition.CargaMeaning(m, k);
  }

  /** The worker reads back the values the page sent. */
  lemma AsIntsOfPayload(cs: seq<Partition.Celula>)
    ensures UnitValidator.AsInts(ParaCelulas(cs)) == Partition.Valores(cs)
  {
  }

  // ---------------------------------------------------------------------------
  // Corrected live check of one edited cell.

  /** `.filter((celula) => celula.problema === "duplicada")`. */
  function Duplicadas(ps: seq<ScriptFrontEnd.Posicao>): seq<ScriptFrontEnd.Posicao>
    decreases |ps|
  {
    if ps == [] then []
    else
      var last := ps[|ps| - 1];
      Duplicadas(ps[..|ps| - 1]) + (if last.problema == "duplicada" then [last] else [])
  }

  /** The duplicate-labelled positions are exactly the positions the worker reported as
      `duplicate`. */
  lemma {:induction false} DuplicadasAreDuplicatePositions(es: seq<UnitValidator.Entry>, p: ScriptFrontEnd.Posicao)
    ensures p in Duplicadas(ParaPosicoes(es)) <==>
      p.problema == "duplicada" && UnitValidator.Pos(p.linha, p.coluna) in UnitValidator.DuplicatePositions(es)
    decreases |es|
  {
    if es != [] {
      var n := |es| - 1;
      assert ParaPosicoes(es)[..n] == ParaPosicoes(es[..n]);
      DuplicadasAreDuplicatePositions(es[..n], p);
    }
  }

  /** The cells of the three payloads for an edited cell, as the worker reads them. */
  function UnidadesDaCelula(m: Grid, linha: int, coluna: int, k: int): seq<UnitValidator.Cell>
    requires IsGrid(m) && InBounds(linha, coluna) && 0 <= k < 3
  {
    ParaCelulas(Partition.ConstruirCargasParaCelula(m, linha, coluna)[k].celulas)
  }

  /** The answer for payload `k` of an edited cell, run leniently. */
  function RespostaDaCelula(m: Grid, linha: int, coluna: int, k: int): (r: UnitValidator.UnitResult)
    requires IsGrid(m) && InBounds(linha, coluna) && 0 <= k < 3
    ensures r == UnitValidator.ValidateUnit(Partition.ConstruirCargasParaCelula(m, linha, coluna)[k].tipo,
      Partition.ConstruirCargasParaCelula(m, linha, coluna)[k].indice, UnidadesDaCelula(m, linha, coluna, k), true)
  {
    Worker(MensagemCorrigida(Partition.ConstruirCargasParaCelula(m, linha, coluna)[k], true)).value
  }

  /** Some cell of unit `k` at position p holds a digit that repeats in that unit. */
  ghost predicate Conflito(m: Grid, linha: int, coluna: int, p: ScriptFrontEnd.Posicao)
    requires IsGrid(m) && InBounds(linha, coluna)
  {
    p.problema == "duplicada" &&
    exists k, i :: 0 <= k < 3 && 0 <= i < |UnidadesDaCelula(m, linha, coluna, k)| &&
      UnitValidator.Flagged(UnidadesDaCelula(m, linha, coluna, k), i) &&
      UnitValidator.PosOf(UnidadesDaCelula(m, linha, coluna, k)[i]) == UnitValidator.Pos(p.linha, p.coluna)
  }

  /** `tratarAlteracaoCelula` with matching field names: the highlighted conflicts are exactly
      the cells of the edited cell's row, column and block whose digit repeats there. */
  method ValidarCelula(m: Grid, linha: int, coluna: int) returns (conflitos: seq<ScriptFrontEnd.Posicao>)
    requires IsGrid(m) && InBounds(linha, coluna)
    ensures forall p :: p in conflitos <==> Conflito(m, linha, coluna, p)
  {
    var rs := ExecutarCargasDaCelula(m, linha, coluna);
    conflitos := [];
    for k := 0 to 3
      invariant forall p :: p in conflitos <==>
        exists j :: 0 <= j < k && p in Duplicadas(ParaPosicoes(RespostaDaCelula(m, linha, coluna, j).invalidPositions))
    {
      if !rs[k].valid {
        conflitos := conflitos + Duplicadas(ParaPosicoes(rs[k].invalidPositions));
      } else {
        assert rs[k].invalidPositions == [];
      }
    }
    forall p ensures p in conflitos <==> Conflito(m, linha, coluna, p) {
      ConflitoMeaning(m, linha, coluna, p);
    }
  }

  /** The three payloads of an edited cell, sent to the workers in lenient mode. */
  method ExecutarCargasDaCelula(m: Grid, linha: int, coluna: int) returns (rs: seq<UnitValidator.UnitResult>)
    requires IsGrid(m) && InBounds(linha, coluna)
    ensures |rs| == 3 && forall k :: 0 <= k < 3 ==> rs[k] == RespostaDaCelula(m, linha, coluna, k)
  {
    var cargas := Partition.ConstruirCargasParaCelula(m, linha, coluna);
    var msgs := seq(3, k requires 0 <= k < 3 => MensagemCorrigida(cargas[k], true));
    rs := ExecutarTodos(msgs).value;
  }

  lemma ConflitoMeaning(m: Grid, linha: int, coluna: int, p: ScriptFrontEnd.Posicao)
    requires IsGrid(m) && InBounds(linha, coluna)
    ensures (exists j :: 0 <= j < 3 && p in Duplicadas(ParaPosicoes(RespostaDaCelula(m, linha, coluna, j).invalidPositions)))
      <==> Conflito(m, linha, coluna, p)
  {
    forall j | 0 <= j < 3
      ensures p in Duplicadas(ParaPosicoes(RespostaDaCelula(m, linha, coluna, j).invalidPositions)) <==>
        p.problema == "duplicada" &&
        exists i :: 0 <= i < |UnidadesDaCelula(m, linha, coluna, j)| &&
          UnitValidator.Flagged(UnidadesDaCelula(m, linha, coluna, j), i) &&
          UnitValidator.PosOf(UnidadesDaCelula(m, linha, coluna, j)[i]) == UnitValidator.Pos(p.linha, p.coluna)
    {
      var cells := UnidadesDaCelula(m, linha, coluna, j);
      DuplicadasAreDuplicatePositions(RespostaDaCelula(m, linha, coluna, j).invalidPositions, p);
      CellPayloadsDistinct(m, linha, coluna, j);
      UnitValidator.DuplicateInvariant(cells, true);
    }
  }

  /** The payloads of an edited cell never list a coordinate twice. */
  lemma CellPayloadsDistinct(m: Grid, linha: int, coluna: int, j: int)
    requires IsGrid(m) && InBounds(linha, coluna) && 0 <= j < 3
    ensures UnitValidator.DistinctCoords(UnidadesDaCelula(m, linha, coluna, j))
  {
    Partition.ParaCelulaMatchesFull(m, linha, coluna);
    var k := if j == 0 then linha else if j == 1 then 9 + coluna else 18 + BoxIndex(linha, coluna);
    Partition.CargaMeaning(m, k);
  }
}
