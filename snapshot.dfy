/** The text the server sends to describe the board (MemoryServer.getBoardString and
    broadcastTablero): face-up cells show their token, face-down cells "???", each cell
    is followed by a space and each row by a newline; on the wire every newline becomes
    '#', so that the whole board travels as one line. */
module Snapshot {
  import opened JavaText
  import opened Game

  /** What a face-down card shows. */
  const Hidden: JString := Lit("???")

  /** What the cell (i, j) shows to the players. */
  function Shown(b: Board, i: int, j: int): JString
    requires b.WellFormed() && b.InBounds(i, j)
  {
    if b.revelado[i][j] then b.tablero[i][j] else Hidden
  }

  /** The grid the players see. */
  function Visible(b: Board): (v: seq<seq<JString>>)
    requires b.WellFormed()
    ensures |v| == b.filas
    ensures forall i :: 0 <= i < b.filas ==> |v[i]| == b.columnas
  {
    seq(b.filas, i requires 0 <= i < b.filas =>
      seq(b.columnas, j requires 0 <= j < b.columnas => Shown(b, i, j)))
  }

  /** Every piece followed by the separator, one after the other. */
  function Terminated(parts: seq<JString>, sep: Char16): JString
  {
    if parts == [] then [] else parts[0] + [sep] + Terminated(parts[1..], sep)
  }

  /** One row of the snapshot: its cells, each followed by a space. */
  function RowText(b: Board, i: int): JString
    requires b.WellFormed() && 0 <= i < b.filas
  {
    Terminated(Visible(b)[i], Space)
  }

  /** getBoardString: the rows, each followed by a newline. */
  function BoardString(b: Board): JString
    requires b.WellFormed()
  {
    Terminated(seq(b.filas, i requires 0 <= i < b.filas => RowText(b, i)), Newline)
  }

  /** The replace("\n", "#") that broadcastTablero applies before sending. */
  function Wire(s: JString): JString
  {
    Replace(s, Newline, Hash)
  }

  /** The replace("#", "\n") with which the client takes a board message apart again. */
  function Unwire(w: JString): JString
  {
    Replace(w, Hash, Newline)
  }

  /** The pieces of a string made of separator-terminated pieces; whatever follows
      the last separator is dropped. */
  function Unterminated(s: JString, sep: Char16): seq<JString>
  {
    var f := Fields(s, sep);
    f[..|f| - 1]
  }

  /** A reader for snapshots: lines, then space-terminated cells on each line. */
  function Decode(s: JString): seq<seq<JString>>
  {
    var lines := Unterminated(s, Newline);
    seq(|lines|, i requires 0 <= i < |lines| => Unterminated(lines[i], Space))
  }

  // ---------------------------------------------------------------------------
  // Lemmas

  /** Appending one piece appends it and a separator. */
  lemma {:induction false} TerminatedSnoc(parts: seq<JString>, x: JString, sep: Char16)
    ensures Terminated(parts + [x], sep) == Terminated(parts, sep) + x + [sep]
    decreases |parts|
  {
    if parts == [] {
      assert [] + [x] == [x];
    } else {
      TerminatedSnoc(parts[1..], x, sep);
      assert (parts + [x])[1..] == parts[1..] + [x];
    }
  }

  /** Every unit of a terminated string is the separator or comes from a piece. */
  lemma {:induction false} TerminatedUnits(parts: seq<JString>, sep: Char16, c: Char16)
    requires c != sep && forall k :: 0 <= k < |parts| ==> c !in parts[k]
    ensures c !in Terminated(parts, sep)
    decreases |parts|
  {
    if parts != [] {
      TerminatedUnits(parts[1..], sep, c);
      assert forall k :: 0 <= k < |parts[1..]| ==> parts[1..][k] == parts[k + 1];
    }
  }

  /** Fields splits a terminated string into its pieces and one empty remainder. */
  lemma {:induction false} FieldsTerminated(parts: seq<JString>, sep: Char16)
    requires forall k :: 0 <= k < |parts| ==> sep !in parts[k]
    ensures Fields(Terminated(parts, sep), sep) == parts + [[]]
    decreases |parts|
  {
    if parts != [] {
      var rest := parts[1..];
      assert forall k :: 0 <= k < |rest| ==> rest[k] == parts[k + 1];
      FieldsTerminated(rest, sep);
      FieldsCons(parts[0], sep, Terminated(rest, sep));
      assert [parts[0]] + (rest + [[]]) == parts + [[]];
    }
  }

  /** Reading the pieces of a terminated string gives them back. */
  lemma UnterminatedTerminated(parts: seq<JString>, sep: Char16)
    requires forall k :: 0 <= k < |parts| ==> sep !in parts[k]
    ensures Unterminated(Terminated(parts, sep), sep) == parts
  {
    FieldsTerminated(parts, sep);
    assert (parts + [[]])[..|parts|] == parts;
  }

  /** A snapshot can be read back into exactly the grid the players see, as long as no
      token contains a space or a newline. */
  lemma DecodeBoardString(b: Board)
    requires b.WellFormed()
    requires forall i, j :: b.InBounds(i, j) ==> Space !in b.tablero[i][j] && Newline !in b.tablero[i][j]
    ensures Decode(BoardString(b)) == Visible(b)
  {
    var v := Visible(b);
    var rows := seq(b.filas, i requires 0 <= i < b.filas => RowText(b, i));
    forall i | 0 <= i < b.filas
      ensures Newline !in rows[i] && Unterminated(rows[i], Space) == v[i]
    {
      forall j | 0 <= j < b.columnas ensures Space !in v[i][j] && Newline !in v[i][j] {
        assert v[i][j] == Shown(b, i, j);
        assert Hidden == [63, 63, 63];
      }
      TerminatedUnits(v[i], Space, Newline);
      UnterminatedTerminated(v[i], Space);
    }
    UnterminatedTerminated(rows, Newline);
    var d := Decode(BoardString(b));
    assert |d| == |v|;
    forall i | 0 <= i < b.filas ensures d[i] == v[i] {
    }
  }

  /** The tokens of face-down cards never reach the players: boards that differ only
      there produce the same snapshot. */
  lemma HiddenTokensNotSent(b1: Board, b2: Board)
    requires b1.WellFormed() && b2.WellFormed()
    requires b1.filas == b2.filas && b1.columnas == b2.columnas && b1.revelado == b2.revelado
    requires forall i, j :: b1.InBounds(i, j) && b1.revelado[i][j] ==> b1.tablero[i][j] == b2.tablero[i][j]
    ensures BoardString(b1) == BoardString(b2)
  {
    forall i | 0 <= i < b1.filas ensures Visible(b1)[i] == Visible(b2)[i] {
      forall j | 0 <= j < b1.columnas ensures Visible(b1)[i][j] == Visible(b2)[i][j] {
        assert Visible(b1)[i][j] == Shown(b1, i, j);
      }
    }
    assert Visible(b1) == Visible(b2);
    var rows1 := seq(b1.filas, i requires 0 <= i < b1.filas => RowText(b1, i));
    var rows2 := seq(b2.filas, i requires 0 <= i < b2.filas => RowText(b2, i));
    assert rows1 == rows2;
  }

  /** The wire form of any string is a single line of the same length. */
  lemma WireIsOneLine(s: JString)
    ensures Newline !in Wire(s) && |Wire(s)| == |s|
  {
    ReplaceRemoves(s, Newline, Hash);
  }

  /** The client's replace undoes the server's when the snapshot held no '#'. */
  lemma UnwireWire(s: JString)
    requires Hash !in s
    ensures Unwire(Wire(s)) == s
  {
    ReplaceRoundTrip(s, Newline, Hash);
  }

  /** A snapshot holds no '#' while no face-up token contains one. */
  lemma BoardStringHashFree(b: Board)
    requires b.WellFormed()
    requires forall i, j :: b.InBounds(i, j) && b.revelado[i][j] ==> Hash !in b.tablero[i][j]
    ensures Hash !in BoardString(b)
    ensures Unwire(Wire(BoardString(b))) == BoardString(b)
  {
    var v := Visible(b);
    var rows := seq(b.filas, i requires 0 <= i < b.filas => RowText(b, i));
    forall i | 0 <= i < b.filas ensures Hash !in rows[i] {
      forall j | 0 <= j < b.columnas ensures Hash !in v[i][j] {
        assert v[i][j] == Shown(b, i, j);
        assert Hidden == [63, 63, 63];
      }
      TerminatedUnits(v[i], Space, Hash);
    }
    TerminatedUnits(rows, Newline, Hash);
    UnwireWire(BoardString(b));
  }

  /** Every unit of a piece occurs in the terminated text. */
  lemma {:induction false} TerminatedHas(parts: seq<JString>, sep: Char16, k: int, c: Char16)
    requires 0 <= k < |parts| && c in parts[k]
    ensures c in Terminated(parts, sep)
    decreases k
  {
    if k > 0 {
      assert parts[1..][k - 1] == parts[k];
      TerminatedHas(parts[1..], sep, k - 1, c);
    }
  }

  /** The third pair's token is "#" itself, and every game of at least three pairs
      deals it (the default 5 x 8 board has twenty). */
  lemma HashTokenDealt(pairs: nat)
    requires pairs >= 3
    ensures Token(2) == [Hash] && Token(2) in Cards(pairs)
  {
    assert Cards(pairs)[4] == Token(2);
  }

  /** Once a face-up card shows a '#', the client's replace turns it into a line
      break: the message no longer reads back as the snapshot. */
  lemma HashTokenBreaksUnwire(b: Board, i: int, j: int)
    requires b.WellFormed() && b.InBounds(i, j) && b.revelado[i][j] && Hash in b.tablero[i][j]
    ensures Unwire(Wire(BoardString(b))) != BoardString(b)
  {
    var rows := seq(b.filas, k requires 0 <= k < b.filas => RowText(b, k));
    assert Visible(b)[i][j] == b.tablero[i][j];
    TerminatedHas(Visible(b)[i], Space, j, Hash);
    assert rows[i] == RowText(b, i);
    TerminatedHas(rows, Newline, i, Hash);
    ReplaceRemoves(Wire(BoardString(b)), Hash, Newline);
  }
}
