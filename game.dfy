/** The board and match engine of the memory game (GameLogic.java): a grid of card
    tokens, a parallel grid of face-up flags, and the operations that turn cards,
    compare them, turn them back and detect the end of the game. */
module Game {
  import opened JavaText

  /** The two ways construction can fail. */
  datatype Error =
    | OddCellCount        // the IllegalArgumentException for an odd number of cells
    | NegativeArraySize   // the NegativeArraySizeException of `new String[filas][columnas]`

  datatype Result<T> = Success(value: T) | Failure(error: Error)

  /** The token of the k-th pair: a one-character string whose character is the Java
      `char` counter started at 33 ('!') and incremented k times, wrapping at 65536. */
  function Token(k: nat): JString
  {
    [(33 + k) % 0x1_0000]
  }

  /** The card list before it is shuffled: pair after pair, two copies of each token. */
  function Cards(pairs: nat): (r: seq<JString>)
    ensures |r| == 2 * pairs
  {
    seq(2 * pairs, i requires 0 <= i < 2 * pairs => Token(i / 2))
  }

  /** The list for one more pair is the list before it with two copies of the new token. */
  lemma CardsSnoc(pairs: nat)
    requires pairs > 0
    ensures Cards(pairs) == Cards(pairs - 1) + [Token(pairs - 1), Token(pairs - 1)]
  {
  }

  /** Different pairs get different tokens while the character counter has not wrapped. */
  lemma TokensDistinct(k1: nat, k2: nat)
    requires k1 < k2 < 0x1_0000
    ensures Token(k1) != Token(k2)
  {
    var c1, c2 := 33 + k1, 33 + k2;
    assert c1 < 0x1_0000 ==> c1 % 0x1_0000 == c1;
    assert c1 >= 0x1_0000 ==> c1 % 0x1_0000 == c1 - 0x1_0000;
    assert c2 < 0x1_0000 ==> c2 % 0x1_0000 == c2;
    assert c2 >= 0x1_0000 ==> c2 % 0x1_0000 == c2 - 0x1_0000;
    assert Token(k1)[0] != Token(k2)[0];
  }

  /** A token of a later pair does not occur among the first `pairs` pairs, as long as
      the character counter has not wrapped around. */
  lemma {:induction false} CardsLack(pairs: nat, k: nat)
    requires pairs <= k < 0x1_0000
    ensures multiset(Cards(pairs))[Token(k)] == 0
  {
    if pairs > 0 {
      CardsLack(pairs - 1, k);
      TokensDistinct(pairs - 1, k);
      CardsStepOther(pairs, Token(k));
    }
  }

  /** Each of the `pairs` tokens occurs exactly twice, as long as there are at most
      65536 pairs (beyond that the character counter wraps and tokens repeat). */
  lemma {:induction false} CardsTwice(pairs: nat, k: nat)
    requires k < pairs <= 0x1_0000
    ensures multiset(Cards(pairs))[Token(k)] == 2
  {
    if k == pairs - 1 {
      CardsLack(pairs - 1, k);
      CardsStepSame(pairs);
    } else {
      CardsTwice(pairs - 1, k);
      TokensDistinct(k, pairs - 1);
      CardsStepOther(pairs, Token(k));
    }
  }

  /** One more pair adds two copies of its own token to the cards ... */
  lemma CardsStepSame(pairs: nat)
    requires pairs > 0
    ensures multiset(Cards(pairs))[Token(pairs - 1)] == multiset(Cards(pairs - 1))[Token(pairs - 1)] + 2
  {
    var t := Token(pairs - 1);
    var c := Cards(pairs - 1);
    CardsSnoc(pairs);
    assert multiset(c + [t, t]) == multiset(c) + multiset{t, t};
  }

  /** ... and none of any other. */
  lemma CardsStepOther(pairs: nat, x: JString)
    requires pairs > 0 && x != Token(pairs - 1)
    ensures multiset(Cards(pairs))[x] == multiset(Cards(pairs - 1))[x]
  {
    var t := Token(pairs - 1);
    var c := Cards(pairs - 1);
    CardsSnoc(pairs);
    assert multiset(c + [t, t]) == multiset(c) + multiset{t, t};
  }

  /** Whatever order the shuffle leaves the cards in, each of the first `pairs` tokens
      is on it exactly twice and nothing else is (while the character counter has not
      wrapped around). */
  lemma ShuffledTokens(barajadas: seq<JString>, pairs: nat)
    requires multiset(barajadas) == multiset(Cards(pairs)) && pairs <= 0x1_0000
    ensures forall k :: 0 <= k < pairs ==> multiset(barajadas)[Token(k)] == 2
    ensures forall x :: x in barajadas ==> exists k :: 0 <= k < pairs && x == Token(k)
  {
    forall k | 0 <= k < pairs ensures multiset(barajadas)[Token(k)] == 2 {
      CardsTwice(pairs, k);
    }
    forall x | x in barajadas ensures exists k :: 0 <= k < pairs && x == Token(k) {
      assert x in multiset(Cards(pairs));
      var i :| 0 <= i < |Cards(pairs)| && Cards(pairs)[i] == x;
      assert x == Token(i / 2);
    }
  }

  /** The cells of a grid, row after row. */
  function Flatten<T>(g: seq<seq<T>>): seq<T>
  {
    if g == [] then [] else g[0] + Flatten(g[1..])
  }

  /** Appending a row appends its cells. */
  lemma {:induction false} FlattenSnoc<T>(g: seq<seq<T>>, row: seq<T>)
    ensures Flatten(g + [row]) == Flatten(g) + row
  {
    if g != [] {
      assert (g + [row])[1..] == g[1..] + [row];
      FlattenSnoc(g[1..], row);
    } else {
      assert Flatten([row]) == row + Flatten([]);
    }
  }

  /** The state of a GameLogic as a value: the dimensions, the token grid (tablero) and
      the face-up grid (revelado). */
  datatype Board = Board(filas: nat, columnas: nat, tablero: seq<seq<JString>>, revelado: seq<seq<bool>>)
  {
    ghost predicate WellFormed()
    {
      && |tablero| == filas && |revelado| == filas
      && (forall i :: 0 <= i < filas ==> |tablero[i]| == columnas)
      && (forall i :: 0 <= i < filas ==> |revelado[i]| == columnas)
    }

    predicate InBounds(fila: int, columna: int)
    {
      0 <= fila < filas && 0 <= columna < columnas
    }

    /** A cell voltearCarta can turn: on the board and face down. */
    predicate CanFlip(fila: int, columna: int)
      requires WellFormed()
    {
      InBounds(fila, columna) && !revelado[fila][columna]
    }

    /** The board with one face-up flag set to `up`, everything else as it was. */
    function SetRevealed(fila: int, columna: int, up: bool): (b: Board)
      requires WellFormed() && InBounds(fila, columna)
      ensures b.WellFormed()
      ensures b.filas == filas && b.columnas == columnas && b.tablero == tablero
      ensures b.revelado[fila][columna] == up
      ensures forall i, j :: InBounds(i, j) && (i != fila || j != columna) ==> b.revelado[i][j] == revelado[i][j]
    {
      Board(filas, columnas, tablero, revelado[fila := revelado[fila][columna := up]])
    }

    /** The board after turning the card at (fila, columna) face up. */
    function Reveal(fila: int, columna: int): Board
      requires WellFormed() && InBounds(fila, columna)
    {
      SetRevealed(fila, columna, true)
    }

    /** The board after turning both named cards face down (esconderCartas). */
    function Hide(fila1: int, col1: int, fila2: int, col2: int): Board
      requires WellFormed() && InBounds(fila1, col1) && InBounds(fila2, col2)
    {
      SetRevealed(fila1, col1, false).SetRevealed(fila2, col2, false)
    }

    /** comprobarSiCoinciden: both cards face up and showing the same token. */
    predicate Matches(fila1: int, col1: int, fila2: int, col2: int)
      requires WellFormed() && InBounds(fila1, col1) && InBounds(fila2, col2)
    {
      revelado[fila1][col1] && revelado[fila2][col2] && tablero[fila1][col1] == tablero[fila2][col2]
    }

    /** verificarJuegoTerminado: every card is face up. */
    predicate Complete()
      requires WellFormed()
    {
      forall i, j :: 0 <= i < filas && 0 <= j < columnas ==> revelado[i][j]
    }

    /** Every card face down, as after construction. */
    predicate AllHidden()
      requires WellFormed()
    {
      forall i, j :: 0 <= i < filas && 0 <= j < columnas ==> !revelado[i][j]
    }
  }

  /** A card once turned cannot be turned again until it is hidden. */
  lemma RevealTwiceFails(b: Board, fila: int, columna: int)
    requires b.WellFormed() && b.CanFlip(fila, columna)
    ensures !b.Reveal(fila, columna).CanFlip(fila, columna)
    ensures b.Reveal(fila, columna).Hide(fila, columna, fila, columna).CanFlip(fila, columna)
  {
  }

  /** Turning two face-down cards and hiding them again restores the board. */
  lemma {:induction false} HideUndoesReveals(b: Board, fila1: int, col1: int, fila2: int, col2: int)
    requires b.WellFormed() && b.CanFlip(fila1, col1)
    requires b.Reveal(fila1, col1).CanFlip(fila2, col2)
    ensures b.Reveal(fila1, col1).Reveal(fila2, col2).Hide(fila1, col1, fila2, col2) == b
  {
    var r := b.Reveal(fila1, col1).Reveal(fila2, col2).Hide(fila1, col1, fila2, col2);
    forall i | 0 <= i < b.filas ensures r.revelado[i] == b.revelado[i] {
      forall j | 0 <= j < b.columnas ensures r.revelado[i][j] == b.revelado[i][j] {
      }
    }
  }

  /** The comparison is symmetric, and a face-up card matches itself. */
  lemma MatchesSymmetric(b: Board, fila1: int, col1: int, fila2: int, col2: int)
    requires b.WellFormed() && b.InBounds(fila1, col1) && b.InBounds(fila2, col2)
    ensures b.Matches(fila1, col1, fila2, col2) == b.Matches(fila2, col2, fila1, col1)
    ensures b.Matches(fila1, col1, fila1, col1) == b.revelado[fila1][col1]
  {
  }

  // ---------------------------------------------------------------------------
  // Construction

  /** Row i of a grid with `rows` rows of `cols` cells ends inside the grid. */
  lemma RowFits(i: nat, rows: nat, cols: nat)
    requires i < rows
    ensures i * cols + cols == (i + 1) * cols <= rows * cols
  {
    calc {
      i * cols + cols;
    == (i + 1) * cols;
    <= rows * cols;
    }
  }

  /** The loop that lists two cards per pair, the character counter advancing by one
      after each pair. */
  method MakeCards(pairs: nat) returns (cartas: seq<JString>)
    ensures cartas == Cards(pairs)
  {
    cartas := [];
    var caracter: Char16 := 33;
    var i := 0;
    while i < pairs
      invariant 0 <= i <= pairs
      invariant caracter == (33 + i) % 0x1_0000
      invariant cartas == Cards(i)
    {
      CardsSnoc(i + 1);
      cartas := cartas + [[caracter]];
      cartas := cartas + [[caracter]];
      caracter := (caracter + 1) % 0x1_0000;
      i := i + 1;
    }
  }

  /** The contents of a two-dimensional array, row by row. */
  ghost function Grid<T>(t: array2<T>): (g: seq<seq<T>>)
    reads t
    ensures |g| == t.Length0
    ensures forall i :: 0 <= i < t.Length0 ==> |g[i]| == t.Length1
    ensures forall i, j :: 0 <= i < t.Length0 && 0 <= j < t.Length1 ==> g[i][j] == t[i, j]
  {
    seq(t.Length0, i requires 0 <= i < t.Length0 reads t =>
      seq(t.Length1, j requires 0 <= j < t.Length1 reads t => t[i, j]))
  }

  /** The inner loop of the deal: row i receives the cards from the running index on,
      face down; no other row changes. */
  method DealRow(tablero: array2<JString>, revelado: array2<bool>, i: nat, cartas: seq<JString>, inicio: nat)
    requires tablero.Length0 == revelado.Length0 && tablero.Length1 == revelado.Length1
    requires i < tablero.Length0 && inicio + tablero.Length1 <= |cartas|
    modifies tablero, revelado
    ensures forall j :: 0 <= j < tablero.Length1 ==> tablero[i, j] == cartas[inicio + j] && !revelado[i, j]
    ensures forall i', j :: 0 <= i' < tablero.Length0 && i' != i && 0 <= j < tablero.Length1 ==>
      tablero[i', j] == old(tablero[i', j]) && revelado[i', j] == old(revelado[i', j])
  {
    var j := 0;
    while j < tablero.Length1
      invariant 0 <= j <= tablero.Length1
      invariant forall j' :: 0 <= j' < j ==> tablero[i, j'] == cartas[inicio + j'] && !revelado[i, j']
      invariant forall i', j' :: 0 <= i' < tablero.Length0 && i' != i && 0 <= j' < tablero.Length1 ==>
        tablero[i', j'] == old(tablero[i', j']) && revelado[i', j'] == old(revelado[i', j'])
    {
      tablero[i, j] := cartas[inicio + j];
      revelado[i, j] := false;
      j := j + 1;
    }
  }

  /** The nested loops that deal the shuffled cards into the grid, row by row with a
      running index, and turn every card face down. */
  method Deal(tablero: array2<JString>, revelado: array2<bool>, cartas: seq<JString>)
    requires tablero.Length0 == revelado.Length0 && tablero.Length1 == revelado.Length1
    requires |cartas| == tablero.Length0 * tablero.Length1
    modifies tablero, revelado
    ensures Flatten(Grid(tablero)) == cartas
    ensures forall i, j :: 0 <= i < revelado.Length0 && 0 <= j < revelado.Length1 ==> !revelado[i, j]
  {
    var filas, columnas := tablero.Length0, tablero.Length1;
    var indice := 0;
    ghost var dealt: seq<seq<JString>> := [];
    var i := 0;
    while i < filas
      invariant 0 <= i <= filas
      invariant indice == i * columnas
      invariant |dealt| == i && Flatten(dealt) == cartas[..indice]
      invariant forall i' :: 0 <= i' < i ==> |dealt[i']| == columnas
      invariant forall i', j :: 0 <= i' < i && 0 <= j < columnas ==> tablero[i', j] == dealt[i'][j] && !revelado[i', j]
    {
      RowFits(i, filas, columnas);
      DealRow(tablero, revelado, i, cartas, indice);
      ghost var row := cartas[indice..indice + columnas];
      assert cartas[..indice + columnas] == cartas[..indice] + row;
      assert forall j :: 0 <= j < columnas ==> tablero[i, j] == row[j];
      FlattenSnoc(dealt, row);
      dealt := dealt + [row];
      indice := indice + columnas;
      i := i + 1;
    }
    assert indice == |cartas|;
    ghost var g := Grid(tablero);
    forall i' | 0 <= i' < filas ensures g[i'] == dealt[i'] {
    }
    assert g == dealt;
  }

  // ---------------------------------------------------------------------------
  // The engine

  class GameLogic {
    const filas: int
    const columnas: int
    const tablero: array2<JString>
    const revelado: array2<bool>
    /** The contents of the two arrays as a value. */
    ghost var board: Board

    ghost predicate Valid()
      reads this, tablero, revelado
    {
      && filas >= 0 && columnas >= 0
      && tablero.Length0 == filas && tablero.Length1 == columnas
      && revelado.Length0 == filas && revelado.Length1 == columnas
      && board.WellFormed() && board.filas == filas && board.columnas == columnas
      && forall i, j :: 0 <= i < filas && 0 <= j < columnas ==>
        board.tablero[i][j] == tablero[i, j] && board.revelado[i][j] == revelado[i, j]
    }

    /** The constructor once its argument check has passed: the pairs are listed, the
        list is put in the order `barajadas` that Collections.shuffle left it in (any
        permutation of it), and the cards are dealt face down. */
    constructor (filas: int, columnas: int, barajadas: seq<JString>)
      requires filas >= 0 && columnas >= 0 && (filas * columnas) % 2 == 0
      requires multiset(barajadas) == multiset(Cards(filas * columnas / 2))
      ensures Valid() && this.filas == filas && this.columnas == columnas
      ensures fresh(tablero) && fresh(revelado)
      ensures Flatten(board.tablero) == barajadas
      ensures board.AllHidden()
    {
      var n := filas * columnas;
      var cartas := MakeCards(n / 2);
      assert |cartas| == n;
      assert multiset(barajadas) == multiset(cartas);
      assert |barajadas| == |multiset(barajadas)| == |multiset(cartas)| == n;
      var t := new JString[filas, columnas];
      var r := new bool[filas, columnas];
      Deal(t, r, barajadas);
      this.filas := filas;
      this.columnas := columnas;
      tablero := t;
      revelado := r;
      board := Board(filas, columnas, Grid(t), Grid(r));
    }

    /** new GameLogic(filas, columnas): an odd number of cells is refused with the
        IllegalArgumentException, a negative dimension fails when the arrays are
        allocated, and otherwise the board is built from the shuffled cards. */
    static method Create(filas: Int32, columnas: Int32, barajadas: seq<JString>) returns (r: Result<GameLogic>)
      requires -0x8000_0000 <= filas * columnas < 0x8000_0000
      requires filas >= 0 && columnas >= 0 && (filas * columnas) % 2 == 0 ==>
        multiset(barajadas) == multiset(Cards(filas * columnas / 2))
      ensures r.Failure? <==> (filas * columnas) % 2 != 0 || filas < 0 || columnas < 0
      ensures r.Failure? ==> r.error == if (filas * columnas) % 2 != 0 then OddCellCount else NegativeArraySize
      ensures r.Success? ==> && fresh(r.value) && fresh(r.value.tablero) && fresh(r.value.revelado)
                             && r.value.Valid() && r.value.filas == filas && r.value.columnas == columnas
                             && Flatten(r.value.board.tablero) == barajadas
                             && r.value.board.AllHidden()
    {
      if (filas * columnas) % 2 != 0 {
        return Failure(OddCellCount);
      }
      if filas < 0 || columnas < 0 {
        return Failure(NegativeArraySize);
      }
      var g := new GameLogic(filas, columnas, barajadas);
      return Success(g);
    }

    /** voltearCarta: an off-board or face-up cell is refused and nothing changes;
        otherwise exactly that card turns face up. */
    method VoltearCarta(fila: int, columna: int) returns (ok: bool)
      requires Valid()
      modifies this, revelado
      ensures Valid()
      ensures ok == old(board).CanFlip(fila, columna)
      ensures board == if ok then old(board).Reveal(fila, columna) else old(board)
    {
      if fila < 0 || fila >= filas || columna < 0 || columna >= columnas {
        return false;
      }
      if revelado[fila, columna] {
        return false;
      }
      SetFaceUp(fila, columna, true);
      ok := true;
    }

    /** The assignment `revelado[fila][columna] = up` that both operations above perform. */
    method SetFaceUp(fila: int, columna: int, up: bool)
      requires Valid() && board.InBounds(fila, columna)
      modifies this, revelado
      ensures Valid()
      ensures board == old(board).SetRevealed(fila, columna, up)
    {
      revelado[fila, columna] := up;
      board := board.SetRevealed(fila, columna, up);
    }

    /** comprobarSiCoinciden: false unless both cards are face up, then whether their
        tokens are equal. It changes nothing. */
    method ComprobarSiCoinciden(fila1: int, col1: int, fila2: int, col2: int) returns (r: bool)
      requires Valid() && board.InBounds(fila1, col1) && board.InBounds(fila2, col2)
      ensures r <==> revelado[fila1, col1] && revelado[fila2, col2] && tablero[fila1, col1] == tablero[fila2, col2]
      ensures r == board.Matches(fila1, col1, fila2, col2)
    {
      if !revelado[fila1, col1] || !revelado[fila2, col2] {
        return false;
      }
      return tablero[fila1, col1] == tablero[fila2, col2];
    }

    /** esconderCartas: both named cards face down, everything else as it was. */
    method EsconderCartas(fila1: int, col1: int, fila2: int, col2: int)
      requires Valid() && board.InBounds(fila1, col1) && board.InBounds(fila2, col2)
      modifies this, revelado
      ensures Valid()
      ensures board == old(board).Hide(fila1, col1, fila2, col2)
    {
      SetFaceUp(fila1, col1, false);
      SetFaceUp(fila2, col2, false);
    }

    /** verificarJuegoTerminado: scans the grid row by row and stops at the first face-down
        card; true exactly when every card is face up. */
    method VerificarJuegoTerminado() returns (terminado: bool)
      requires Valid()
      ensures terminado <==> forall i, j :: 0 <= i < filas && 0 <= j < columnas ==> revelado[i, j]
      ensures terminado == board.Complete()
    {
      var i := 0;
      while i < filas
        invariant 0 <= i <= filas
        invariant forall i', j :: 0 <= i' < i && 0 <= j < columnas ==> revelado[i', j]
      {
        var j := 0;
        while j < columnas
          invariant 0 <= j <= columnas
          invariant forall j' :: 0 <= j' < j ==> revelado[i, j']
        {
          if !revelado[i, j] {
            return false;
          }
          j := j + 1;
        }
        i := i + 1;
      }
      return true;
    }
  }
}
