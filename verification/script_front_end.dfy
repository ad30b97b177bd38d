/**
  The small pure helpers of the single-page front-end (script.js): the input
  filter of an editable cell, the set of locked (clue) cells, the corruption
  used by the "fill wrong" button, and the fold that turns the 27 worker
  results into a verdict. Names follow the script.
 */
module ScriptFrontEnd {
  import opened Board
  import opened Wrappers
  import FormulaGenerator

  // ---------------------------------------------------------------------------
  // imporSimboloNumerico

  /** `\d` without the `u` flag: the ASCII digits. */
  predicate IsAsciiDigit(ch: char) {
    '0' <= ch <= '9'
  }

  /** `value.replace(/[^\d]/g, "")`. */
  function SoDigitos(s: string): (r: string)
    ensures |r| <= |s| && forall i :: 0 <= i < |r| ==> IsAsciiDigit(r[i])
    decreases |s|
  {
    if s == [] then []
    else
      var rest := SoDigitos(s[..|s| - 1]);
      if IsAsciiDigit(s[|s| - 1]) then rest + [s[|s| - 1]] else rest
  }

  /** The first ASCII digit of `s`, scanning from the left. */
  function FirstAsciiDigit(s: string): (d: Option<char>)
    ensures d.Some? ==> IsAsciiDigit(d.value) && d.value in s
    ensures d.None? ==> forall i :: 0 <= i < |s| ==> !IsAsciiDigit(s[i])
    decreases |s|
  {
    if s == [] then None
    else if IsAsciiDigit(s[0]) then Some(s[0])
    else FirstAsciiDigit(s[1..])
  }

  /** `Number(d)` for one ASCII digit. */
  function DigitValue(ch: char): int
    requires IsAsciiDigit(ch)
  {
    ch as int - '0' as int
  }

  /** `imporSimboloNumerico`: keep the digits, keep only the first, then clear "0" and any
      value above 9. */
  function ImporSimboloNumerico(s: string): (r: string)
    ensures r == [] || (|r| == 1 && '1' <= r[0] <= '9')
  {
    var limpo := SoDigitos(s);
    var limpo := if |limpo| > 1 then [limpo[0]] else limpo;
    if |limpo| > 0 && (limpo == "0" || DigitValue(limpo[0]) > 9) then "" else limpo
  }

  /** The filter keeps the digits in order, so its first character is the first digit. */
  lemma {:induction false} SoDigitosFirst(s: string)
    ensures FirstAsciiDigit(s).None? <==> SoDigitos(s) == []
    ensures FirstAsciiDigit(s).Some? ==> SoDigitos(s)[0] == FirstAsciiDigit(s).value
    decreases |s|
  {
    if s != [] {
      var w := s[..|s| - 1];
      SoDigitosFirst(w);
      if FirstAsciiDigit(w).Some? {
        FirstDigitOfPrefix(s);
      } else if IsAsciiDigit(s[|s| - 1]) {
        FirstDigitIsLast(s);
      } else {
        NoDigitExtended(s);
      }
    }
  }

  lemma {:induction false} FirstDigitOfPrefix(s: string)
    requires s != [] && FirstAsciiDigit(s[..|s| - 1]).Some?
    ensures FirstAsciiDigit(s) == FirstAsciiDigit(s[..|s| - 1])
    decreases |s|
  {
    if !IsAsciiDigit(s[0]) {
      assert s[1..][..|s[1..]| - 1] == s[..|s| - 1][1..];
      FirstDigitOfPrefix(s[1..]);
    }
  }

  lemma {:induction false} FirstDigitIsLast(s: string)
    requires s != [] && FirstAsciiDigit(s[..|s| - 1]).None? && IsAsciiDigit(s[|s| - 1])
    ensures FirstAsciiDigit(s) == Some(s[|s| - 1])
    decreases |s|
  {
    if |s| > 1 {
      assert !IsAsciiDigit(s[..|s| - 1][0]);
      assert s[1..][..|s[1..]| - 1] == s[..|s| - 1][1..];
      FirstDigitIsLast(s[1..]);
    }
  }

  lemma NoDigitExtended(s: string)
    requires s != [] && FirstAsciiDigit(s[..|s| - 1]).None? && !IsAsciiDigit(s[|s| - 1])
    ensures FirstAsciiDigit(s).None?
  {
    assert forall i :: 0 <= i < |s| - 1 ==> s[i] == s[..|s| - 1][i];
    NoDigitNone(s);
  }

  lemma {:induction false} NoDigitNone(s: string)
    requires forall i :: 0 <= i < |s| ==> !IsAsciiDigit(s[i])
    ensures FirstAsciiDigit(s).None?
    decreases |s|
  {
    if s != [] {
      NoDigitNone(s[1..]);
    }
  }

  /** The cell keeps the first digit typed, unless that digit is '0'; with no digit it is
      cleared. */
  lemma ImporSimboloIsFirstDigit(s: string)
    ensures ImporSimboloNumerico(s) ==
      match FirstAsciiDigit(s)
      case None => ""
      case Some(d) => if d == '0' then "" else [d]
  {
    SoDigitosFirst(s);
  }

  // ---------------------------------------------------------------------------
  // construirConjuntoBloqueado

  /** `construirConjuntoBloqueado`: the coordinates of the clues (the key `${l}-${c}` is
      modelled by the pair). */
  function ConstruirConjuntoBloqueado(m: Grid): (bloqueadas: set<(int, int)>)
    requires IsGrid(m)
    ensures forall l, c :: (l, c) in bloqueadas <==> InBounds(l, c) && m[l][c] != 0
  {
    set l, c | 0 <= l < 9 && 0 <= c < 9 && m[l][c] != 0 :: (l, c)
  }

  /** On a masked solved board, the locked cells are exactly those whose draw did not hide
      them. */
  lemma BloqueadasAreKeptClues(solucao: Grid, sorteios: seq<seq<real>>, proporcao: real, l: int, c: int)
    requires IsSolved(solucao) && FormulaGenerator.IsDrawGrid(sorteios) && InBounds(l, c)
    ensures (l, c) in ConstruirConjuntoBloqueado(FormulaGenerator.MascararTabuleiro(solucao, sorteios, proporcao))
      <==> !(sorteios[l][c] < proporcao)
  {
    FormulaGenerator.MaskedBoardIsPuzzle(solucao, sorteios, proporcao);
  }

  // ---------------------------------------------------------------------------
  // construirMatrizIncorreta

  predicate Livre(bloqueadas: set<(int, int)>, l: int, c: int) {
    (l, c) !in bloqueadas
  }

  /** `livres`: the unlocked columns of row `l` from column `c` on, ascending. */
  function Livres(bloqueadas: set<(int, int)>, l: int, c: int): (cols: seq<int>)
    requires 0 <= c <= 9
    ensures |cols| <= 9 - c && forall i :: 0 <= i < |cols| ==> c <= cols[i] < 9
    decreases 9 - c
  {
    if c == 9 then []
    else if Livre(bloqueadas, l, c) then [c] + Livres(bloqueadas, l, c + 1)
    else Livres(bloqueadas, l, c + 1)
  }

  /** The list holds exactly the unlocked columns from `c` on, in ascending order. */
  lemma LivresSpec(bloqueadas: set<(int, int)>, l: int, c: int)
    requires 0 <= c <= 9
    ensures var cols := Livres(bloqueadas, l, c);
      (forall i :: 0 <= i < |cols| ==> c <= cols[i] < 9 && Livre(bloqueadas, l, cols[i])) &&
      (forall i, j :: 0 <= i < j < |cols| ==> cols[i] < cols[j]) &&
      (forall x :: c <= x < 9 && Livre(bloqueadas, l, x) ==> x in cols)
  {
    LivresAreFree(bloqueadas, l, c);
    LivresAscending(bloqueadas, l, c);
    LivresComplete(bloqueadas, l, c);
    assert Ascending(Livres(bloqueadas, l, c));
  }

  lemma {:induction false} LivresAreFree(bloqueadas: set<(int, int)>, l: int, c: int)
    requires 0 <= c <= 9
    ensures forall i :: 0 <= i < |Livres(bloqueadas, l, c)| ==> Livre(bloqueadas, l, Livres(bloqueadas, l, c)[i])
    decreases 9 - c
  {
    if c < 9 {
      LivresAreFree(bloqueadas, l, c + 1);
    }
  }

  predicate Ascending(s: seq<int>) {
    forall i, j :: 0 <= i < j < |s| ==> s[i] < s[j]
  }

  lemma {:induction false} LivresAscending(bloqueadas: set<(int, int)>, l: int, c: int)
    requires 0 <= c <= 9
    ensures Ascending(Livres(bloqueadas, l, c))
    decreases 9 - c
  {
    if c < 9 {
      var rest := Livres(bloqueadas, l, c + 1);
      LivresAscending(bloqueadas, l, c + 1);
      if Livre(bloqueadas, l, c) {
        AscendingCons(c, rest);
      }
    }
  }

  lemma AscendingCons(x: int, rest: seq<int>)
    requires Ascending(rest) && forall k :: 0 <= k < |rest| ==> x < rest[k]
    ensures Ascending([x] + rest)
  {
    var s := [x] + rest;
    forall i, j | 0 <= i < j < |s| ensures s[i] < s[j] {
      if i == 0 {
        assert s[j] == rest[j - 1];
      } else {
        assert s[i] == rest[i - 1] && s[j] == rest[j - 1];
      }
    }
  }

  lemma {:induction false} LivresComplete(bloqueadas: set<(int, int)>, l: int, c: int)
    requires 0 <= c <= 9
    ensures forall x :: c <= x < 9 && Livre(bloqueadas, l, x) ==> x in Livres(bloqueadas, l, c)
    decreases 9 - c
  {
    if c < 9 {
      LivresComplete(bloqueadas, l, c + 1);
    }
  }

  /** Row `l` has at least two unlocked columns. */
  predicate DuasLivres(bloqueadas: set<(int, int)>, l: int) {
    |Livres(bloqueadas, l, 0)| >= 2
  }

  /** The first row from `l` on with at least two unlocked columns. */
  function LinhaEscolhida(bloqueadas: set<(int, int)>, l: int): (r: Option<int>)
    requires 0 <= l <= 9
    ensures r.Some? ==> l <= r.value < 9 && DuasLivres(bloqueadas, r.value)
    ensures r.Some? ==> forall l' :: l <= l' < r.value ==> !DuasLivres(bloqueadas, l')
    ensures r.None? ==> forall l' :: l <= l' < 9 ==> !DuasLivres(bloqueadas, l')
    decreases 9 - l
  {
    if l == 9 then None
    else if DuasLivres(bloqueadas, l) then Some(l)
    else LinhaEscolhida(bloqueadas, l + 1)
  }

  /** The first unlocked cell in row-major order, from flat index `k` on. */
  function PrimeiraLivre(bloqueadas: set<(int, int)>, k: int): (cell: Option<(int, int)>)
    requires 0 <= k <= 81
    ensures cell.Some? ==> InBounds(cell.value.0, cell.value.1) && Livre(bloqueadas, cell.value.0, cell.value.1)
    ensures cell.Some? ==> k <= cell.value.0 * 9 + cell.value.1
    ensures cell.Some? ==> forall i :: k <= i < cell.value.0 * 9 + cell.value.1 ==> !Livre(bloqueadas, i / 9, i % 9)
    ensures cell.None? ==> forall i :: k <= i < 81 ==> !Livre(bloqueadas, i / 9, i % 9)
    decreases 81 - k
  {
    if k == 81 then None
    else if Livre(bloqueadas, k / 9, k % 9) then Some((k / 9, k % 9))
    else PrimeiraLivre(bloqueadas, k + 1)
  }

  /** `construirMatrizIncorreta`, with the locked set passed in. */
  function ConstruirMatrizIncorreta(solucao: Grid, bloqueadas: set<(int, int)>): (matriz: Grid)
    requires IsGrid(solucao)
    ensures IsGrid(matriz)
    ensures forall l, c | 0 <= l < 9 && 0 <= c < 9 && !Livre(bloqueadas, l, c) :: matriz[l][c] == solucao[l][c]
    ensures forall l, c, l', c' | 0 <= l < 9 && 0 <= c < 9 && 0 <= l' < 9 && 0 <= c' < 9 &&
      matriz[l][c] != solucao[l][c] && matriz[l'][c'] != solucao[l'][c'] :: (l, c) == (l', c')
  {
    match LinhaEscolhida(bloqueadas, 0)
    case Some(linha) =>
      var livres := Livres(bloqueadas, linha, 0);
      LivresSpec(bloqueadas, linha, 0);
      solucao[linha := solucao[linha][livres[1] := solucao[linha][livres[0]]]]
    case None =>
      match PrimeiraLivre(bloqueadas, 0)
      case Some((l, c)) => solucao[l := solucao[l][c := 0]]
      case None => solucao
  }

  /** Every cell is locked. */
  predicate TodasBloqueadas(bloqueadas: set<(int, int)>) {
    forall l, c | 0 <= l < 9 && 0 <= c < 9 :: !Livre(bloqueadas, l, c)
  }

  /** Corrupting a solved board yields an unsolved one exactly when some cell is unlocked;
      with every cell locked the copy is unchanged. */
  lemma MatrizIncorretaInvalid(solucao: Grid, bloqueadas: set<(int, int)>)
    requires IsSolved(solucao)
    ensures IsSolved(ConstruirMatrizIncorreta(solucao, bloqueadas)) <==> TodasBloqueadas(bloqueadas)
    ensures TodasBloqueadas(bloqueadas) ==> ConstruirMatrizIncorreta(solucao, bloqueadas) == solucao
  {
    match LinhaEscolhida(bloqueadas, 0)
    case Some(linha) =>
      CopyBreaksBoard(solucao, bloqueadas, linha);
    case None =>
      match PrimeiraLivre(bloqueadas, 0)
      case Some((l, c)) =>
        ClearBreaksBoard(solucao, bloqueadas, l, c);
      case None =>
        NoFreeCell(bloqueadas);
  }

  /** Copying a value within a row of a solved board repeats it in that row. */
  lemma CopyBreaksBoard(solucao: Grid, bloqueadas: set<(int, int)>, linha: int)
    requires IsSolved(solucao) && LinhaEscolhida(bloqueadas, 0) == Some(linha)
    ensures !IsSolved(ConstruirMatrizIncorreta(solucao, bloqueadas)) && !TodasBloqueadas(bloqueadas)
  {
    var matriz := ConstruirMatrizIncorreta(solucao, bloqueadas);
    var livres := Livres(bloqueadas, linha, 0);
    var a, b := livres[0], livres[1];
    LivresSpec(bloqueadas, linha, 0);
    assert matriz[linha][b] == matriz[linha][a] && matriz[linha][a] != 0;
    assert Peers(linha, a, linha, b);
    assert Livre(bloqueadas, linha, a);
  }

  /** Clearing a cell of a solved board leaves it unfinished. */
  lemma ClearBreaksBoard(solucao: Grid, bloqueadas: set<(int, int)>, l: int, c: int)
    requires IsSolved(solucao) && LinhaEscolhida(bloqueadas, 0).None?
    requires PrimeiraLivre(bloqueadas, 0) == Some((l, c))
    ensures !IsSolved(ConstruirMatrizIncorreta(solucao, bloqueadas)) && !TodasBloqueadas(bloqueadas)
  {
    assert ConstruirMatrizIncorreta(solucao, bloqueadas)[l][c] == 0;
  }

  /** With no unlocked cell in row-major order, every cell is locked. */
  lemma NoFreeCell(bloqueadas: set<(int, int)>)
    requires PrimeiraLivre(bloqueadas, 0).None?
    ensures TodasBloqueadas(bloqueadas)
  {
    forall l, c | 0 <= l < 9 && 0 <= c < 9 ensures !Livre(bloqueadas, l, c) {
      assert (l * 9 + c) / 9 == l && (l * 9 + c) % 9 == c;
    }
  }

  /** When some row has two unlocked cells, the first such row gets the value of its first
      unlocked cell copied into its second, and nothing else changes. */
  lemma {:induction false} MatrizIncorretaCopiesInRow(solucao: Grid, bloqueadas: set<(int, int)>, linha: int)
    requires IsGrid(solucao) && 0 <= linha < 9 && DuasLivres(bloqueadas, linha)
    requires forall l :: 0 <= l < linha ==> !DuasLivres(bloqueadas, l)
    ensures var livres := Livres(bloqueadas, linha, 0);
      var matriz := ConstruirMatrizIncorreta(solucao, bloqueadas);
      matriz[linha][livres[1]] == solucao[linha][livres[0]] &&
      forall l, c | 0 <= l < 9 && 0 <= c < 9 && (l, c) != (linha, livres[1]) :: matriz[l][c] == solucao[l][c]
  {
    LinhaEscolhidaIsFirst(bloqueadas, linha);
    LivresSpec(bloqueadas, linha, 0);
    var livres := Livres(bloqueadas, linha, 0);
    var matriz := ConstruirMatrizIncorreta(solucao, bloqueadas);
    assert matriz == solucao[linha := solucao[linha][livres[1] := solucao[linha][livres[0]]]];
    forall l, c | 0 <= l < 9 && 0 <= c < 9 && (l, c) != (linha, livres[1])
      ensures matriz[l][c] == solucao[l][c]
    {
      if l == linha {
        assert c != livres[1];
      }
    }
  }

  /** When no row has two unlocked cells, the first unlocked cell in row-major order is
      cleared to 0 and nothing else changes. */
  lemma MatrizIncorretaClearsFirstFree(solucao: Grid, bloqueadas: set<(int, int)>, l: int, c: int)
    requires IsGrid(solucao) && InBounds(l, c)
    requires forall r :: 0 <= r < 9 ==> !DuasLivres(bloqueadas, r)
    requires Livre(bloqueadas, l, c) && forall i :: 0 <= i < l * 9 + c ==> !Livre(bloqueadas, i / 9, i % 9)
    ensures var matriz := ConstruirMatrizIncorreta(solucao, bloqueadas);
      matriz[l][c] == 0 &&
      forall r, k | 0 <= r < 9 && 0 <= k < 9 && (r, k) != (l, c) :: matriz[r][k] == solucao[r][k]
  {
    PrimeiraLivreIsFirst(bloqueadas, l, c, 0);
    assert LinhaEscolhida(bloqueadas, 0).None?;
  }

  /** The row-major search from `k` stops at the first unlocked cell at or after `k`. */
  lemma {:induction false} PrimeiraLivreIsFirst(bloqueadas: set<(int, int)>, l: int, c: int, k: int)
    requires InBounds(l, c) && 0 <= k <= l * 9 + c
    requires Livre(bloqueadas, l, c) && forall i :: k <= i < l * 9 + c ==> !Livre(bloqueadas, i / 9, i % 9)
    ensures PrimeiraLivre(bloqueadas, k) == Some((l, c))
    decreases l * 9 + c - k
  {
    if k < l * 9 + c {
      PrimeiraLivreIsFirst(bloqueadas, l, c, k + 1);
    } else {
      assert k / 9 == l && k % 9 == c;
    }
  }

  lemma LinhaEscolhidaIsFirst(bloqueadas: set<(int, int)>, linha: int)
    requires 0 <= linha < 9 && DuasLivres(bloqueadas, linha)
    requires forall l :: 0 <= l < linha ==> !DuasLivres(bloqueadas, l)
    ensures LinhaEscolhida(bloqueadas, 0) == Some(linha)
  {
  }

  // ---------------------------------------------------------------------------
  // Verdict aggregation in validarTabuleiro

  /** `{ linha, coluna, problema }`: one reported cell. */
  datatype Posicao = Posicao(linha: int, coluna: int, problema: string)

  /** The fields of a worker result the aggregation reads. */
  datatype Resultado = Resultado(valido: bool, posicoesInvalidas: seq<Posicao>)

  /** The reported cells of the invalid results, concatenated in result order. */
  function Problemas(resultados: seq<Resultado>): seq<Posicao>
    decreases |resultados|
  {
    if resultados == [] then []
    else
      var last := resultados[|resultados| - 1];
      Problemas(resultados[..|resultados| - 1]) + (if last.valido then [] else last.posicoesInvalidas)
  }

  /** The `forEach` over the results: `todasValidas` is the conjunction of `valido`, and
      the problem cells are the invalid results' positions in order. */
  method Agregar(resultados: seq<Resultado>) returns (todasValidas: bool, celulasProblematicas: seq<Posicao>)
    ensures todasValidas <==> forall i :: 0 <= i < |resultados| ==> resultados[i].valido
    ensures celulasProblematicas == Problemas(resultados)
  {
    todasValidas := true;
    celulasProblematicas := [];
    for i := 0 to |resultados|
      invariant todasValidas <==> forall j :: 0 <= j < i ==> resultados[j].valido
      invariant celulasProblematicas == Problemas(resultados[..i])
    {
      assert resultados[..i + 1][..i] == resultados[..i];
      if !resultados[i].valido {
        todasValidas := false;
        celulasProblematicas := celulasProblematicas + resultados[i].posicoesInvalidas;
      }
    }
    assert resultados[..|resultados|] == resultados;
  }

  /** A cell is reported exactly when some invalid result lists it. */
  lemma {:induction false} ProblemasMembership(resultados: seq<Resultado>, p: Posicao)
    ensures p in Problemas(resultados) <==>
      exists i :: 0 <= i < |resultados| && !resultados[i].valido && p in resultados[i].posicoesInvalidas
    decreases |resultados|
  {
    if resultados != [] {
      var n := |resultados| - 1;
      var w := resultados[..n];
      ProblemasMembership(w, p);
      if p in Problemas(resultados) && p !in Problemas(w) {
        assert !resultados[n].valido && p in resultados[n].posicoesInvalidas;
      }
      if exists i :: 0 <= i < |resultados| && !resultados[i].valido && p in resultados[i].posicoesInvalidas {
        var i :| 0 <= i < |resultados| && !resultados[i].valido && p in resultados[i].posicoesInvalidas;
        if i < n {
          assert w[i] == resultados[i];
        }
      }
    }
  }
}
