/** The move protocol of MemoryServer.ClientHandler.run as a state machine on values:
    one call of Step is one turn of a handler's read loop, Deliver applies it to the
    two-player system, and Run to a whole schedule of lines. The imperative handler
    in the Server module is proved to perform exactly these steps. */
module Turns {
  import opened JavaText
  import opened Game
  import opened Snapshot

  /** The two handlers are created with the ids 0 and 1, in order of connection. */
  type PlayerId = i: int | 0 <= i < 2

  const MoveKeyword: JString := Lit("MOVE")
  const NotYourTurn: JString := Lit("No es tu turno.")
  const InvalidMove: JString := Lit("Movimiento inválido o carta ya revelada. Intenta otra vez.")
  const AwaitSecond: JString := Lit("Esperando tu segunda jugada.")
  const GameOver: JString := Lit("¡Juego terminado!")
  const GameStarted: JString := Lit("¡Juego iniciado! Turno del Jugador 1")

  function Welcome(id: PlayerId): JString
  {
    Lit("Bienvenido, eres el Jugador ") + IntToString(id + 1)
  }

  function PairFound(id: PlayerId): JString
  {
    Lit("¡Jugador ") + IntToString(id + 1) + Lit(" encontró una pareja!")
  }

  function TurnOf(turno: int): JString
  {
    Lit("Turno del Jugador ") + IntToString(turno + 1)
  }

  /** A line written to one player (sendMessage) or to every player (broadcast). */
  datatype Outgoing = ToPlayer(player: PlayerId, text: JString) | ToAll(text: JString)

  /** The server fields both handler threads read and write. */
  datatype Shared = Shared(board: Board, turnoActual: int, juegoTerminado: bool)

  /** The fields a handler keeps for the move in progress: jugadaActual is 0 while the
      first card is awaited and 1 while the second is, and (filaPrimera, colPrimera) is
      the first card. */
  datatype Pick = Pick(jugadaActual: int, filaPrimera: int, colPrimera: int)

  const NoPick: Pick := Pick(0, -1, -1)

  /** The state after one turn of the loop: running is false once the handler's loop
      has ended, and sent lists the lines written during the turn. */
  datatype Outcome = Outcome(shared: Shared, pick: Pick, running: bool, sent: seq<Outgoing>)

  /** What the handler relies on when it compares with the first card: the board is
      a grid and a pending first card lies on it. */
  ghost predicate Fits(s: Shared, p: Pick)
  {
    s.board.WellFormed() && (p.jugadaActual != 0 ==> s.board.InBounds(p.filaPrimera, p.colPrimera))
  }

  /** One turn of the read loop of player `id`, from its blocking readLine to its next
      loop test. The handler reads a line only after its test of juegoTerminado has
      passed, so a handler that is already waiting when the other one ends the game
      still answers the line it reads. The loop ends at the end of the input (None),
      when parseInt throws, since nothing in run() catches a NumberFormatException,
      and at a test that finds the game over. */
  function Step(s: Shared, id: PlayerId, p: Pick, line: Option<JString>): (o: Outcome)
    requires Fits(s, p)
    ensures Keeps(s.board, o.shared.board)
    ensures o.running ==> !o.shared.juegoTerminado
  {
    if line.None? then Outcome(s, p, false, [])
    else LoopTest(Body(s, id, p, line.value))
  }

  /** The loop test `!juegoTerminado`, which every `continue` and the end of the body
      lead back to. */
  function LoopTest(o: Outcome): (r: Outcome)
    ensures r.shared == o.shared && r.pick == o.pick && r.sent == o.sent
    ensures r.running <==> o.running && !o.shared.juegoTerminado
  {
    o.(running := o.running && !o.shared.juegoTerminado)
  }

  /** The body of the read loop for one line read; running is false only when parseInt
      has thrown. */
  function Body(s: Shared, id: PlayerId, p: Pick, line: JString): (o: Outcome)
    requires Fits(s, p)
    ensures Keeps(s.board, o.shared.board)
  {
    if !StartsWith(line, MoveKeyword) then Outcome(s, p, true, [])
    else if id != s.turnoActual then Outcome(s, p, true, [ToPlayer(id, NotYourTurn)])
    else
      var parts := Split(line, Space);
      if |parts| < 3 then Outcome(s, p, true, [])
      else if ParseInt(parts[1]).None? || ParseInt(parts[2]).None? then Outcome(s, p, false, [])
      else Move(s, id, p, ParseInt(parts[1]).value, ParseInt(parts[2]).value)
  }

  /** A move of the player whose turn it is, at (fila, col). A refused card ends the
      turn of the loop at once: the end-of-game check is skipped. */
  function Move(s: Shared, id: PlayerId, p: Pick, fila: int, col: int): (o: Outcome)
    requires Fits(s, p)
    ensures Keeps(s.board, o.shared.board)
  {
    if !s.board.CanFlip(fila, col) then Outcome(s, p, true, [ToPlayer(id, InvalidMove)])
    else Finish(Accepted(s, id, p, fila, col))
  }

  /** An accepted card, before the end-of-game check: a first card is remembered; a
      second card that matches the first keeps the turn, one that does not turns both
      back and passes the turn. The board goes out after every change. */
  function Accepted(s: Shared, id: PlayerId, p: Pick, fila: int, col: int): (o: Outcome)
    requires Fits(s, p) && s.board.CanFlip(fila, col)
    ensures Keeps(s.board, o.shared.board)
  {
    var b1 := s.board.Reveal(fila, col);
    if p.jugadaActual == 0 then
      Outcome(s.(board := b1), Pick(1, fila, col), true, [ToAll(Wire(BoardString(b1))), ToPlayer(id, AwaitSecond)])
    else Compared(s.(board := b1), id, p, fila, col)
  }

  /** A second card, once turned face up on the board of `s`: the board goes out, then
      a match keeps the turn, a mismatch turns both cards back, sends the board again
      and passes the turn. The pick is cleared either way. */
  function Compared(s: Shared, id: PlayerId, p: Pick, fila: int, col: int): (o: Outcome)
    requires s.board.WellFormed() && s.board.InBounds(p.filaPrimera, p.colPrimera) && s.board.InBounds(fila, col)
    ensures Keeps(s.board, o.shared.board) && o.pick == NoPick && o.running
  {
    var shown := ToAll(Wire(BoardString(s.board)));
    if s.board.Matches(p.filaPrimera, p.colPrimera, fila, col) then
      Outcome(s, NoPick, true, [shown, ToAll(PairFound(id))])
    else
      var b2 := s.board.Hide(p.filaPrimera, p.colPrimera, fila, col);
      var turno := JavaRem(s.turnoActual + 1, 2);
      Outcome(Shared(b2, turno, s.juegoTerminado), NoPick, true,
              [shown, ToAll(Wire(BoardString(b2))), ToAll(TurnOf(turno))])
  }

  /** The cards never move: a turn changes face-up flags only, and the board keeps its
      shape. */
  ghost predicate Keeps(b: Board, b': Board)
  {
    b'.WellFormed() && b'.filas == b.filas && b'.columnas == b.columnas && b'.tablero == b.tablero
  }

  /** The end-of-game check after an accepted card. */
  function Finish(o: Outcome): Outcome
    requires o.shared.board.WellFormed()
  {
    if o.shared.board.Complete() then
      o.(shared := o.shared.(juegoTerminado := true), sent := o.sent + [ToAll(GameOver)])
    else o
  }

  // ---------------------------------------------------------------------------
  // The two-player system

  datatype System = System(shared: Shared, picks: seq<Pick>, running: seq<bool>, sent: seq<Outgoing>)

  /** A handler's own pick is either empty or names a face-up card on the board. */
  ghost predicate PickValid(b: Board, p: Pick)
    requires b.WellFormed()
  {
    && (p.jugadaActual == 0 || p.jugadaActual == 1)
    && (p.jugadaActual == 0 ==> p.filaPrimera == -1 && p.colPrimera == -1)
    && (p.jugadaActual == 1 ==> b.InBounds(p.filaPrimera, p.colPrimera) && b.revelado[p.filaPrimera][p.colPrimera])
  }

  /** What every reachable state satisfies: the turn is 0 or 1, only the player whose
      turn it is can be half-way through a move, a complete non-empty board has ended
      the game, and a game that is over has a complete board and the player who ended
      it has left the loop. */
  ghost predicate Inv(sys: System)
  {
    && |sys.picks| == 2 && |sys.running| == 2
    && sys.shared.board.WellFormed()
    && (sys.shared.turnoActual == 0 || sys.shared.turnoActual == 1)
    && (forall id: PlayerId :: PickValid(sys.shared.board, sys.picks[id]))
    && (forall id: PlayerId :: id != sys.shared.turnoActual ==> sys.picks[id].jugadaActual == 0)
    && (sys.shared.board.filas > 0 && sys.shared.board.columnas > 0 && sys.shared.board.Complete() ==>
          sys.shared.juegoTerminado)
    && (sys.shared.juegoTerminado ==> sys.shared.board.Complete() && !sys.running[sys.shared.turnoActual])
  }

  /** The system once both players are connected and start() has announced the game:
      each handler has greeted its player, and the first board has gone out. */
  function Initial(b: Board): System
    requires b.WellFormed()
  {
    System(Shared(b, 0, false), [NoPick, NoPick], [true, true],
           [ToPlayer(0, Welcome(0)), ToPlayer(1, Welcome(1)), ToAll(GameStarted), ToAll(Wire(BoardString(b)))])
  }

  /** A line arrives for player `id`; a handler whose loop has ended reads nothing.
      A handler whose loop test passed before the other one ended the game is still
      waiting in readLine and handles the line. */
  function Deliver(sys: System, id: PlayerId, line: Option<JString>): (r: System)
    requires Inv(sys)
    ensures Keeps(sys.shared.board, r.shared.board)
    ensures |r.picks| == 2 && |r.running| == 2
  {
    if !sys.running[id] then sys
    else
      var o := Step(sys.shared, id, sys.picks[id], line);
      System(o.shared, sys.picks[id := o.pick], sys.running[id := o.running], sys.sent + o.sent)
  }

  /** The lines of a schedule, delivered one after another. */
  function Run(sys: System, schedule: seq<(PlayerId, Option<JString>)>): System
    requires Inv(sys)
    decreases |schedule|
  {
    if schedule == [] then sys
    else
      StepPreservesInv(sys, schedule[0].0, schedule[0].1);
      Run(Deliver(sys, schedule[0].0, schedule[0].1), schedule[1..])
  }

  // ---------------------------------------------------------------------------
  // Lemmas

  /** A fresh board of face-down cards starts in a valid state. */
  lemma InitialInv(b: Board)
    requires b.WellFormed() && b.AllHidden()
    ensures Inv(Initial(b))
  {
    if b.filas > 0 && b.columnas > 0 {
      assert !b.revelado[0][0];
    }
  }

  /** A turn of the loop either leaves the shared state and the pick as they were, or
      is a move of the player whose turn it is, at the coordinates the line names. */
  lemma StepCases(s: Shared, id: PlayerId, p: Pick, line: Option<JString>) returns (moved: bool, fila: int, col: int)
    requires Fits(s, p)
    ensures !moved ==> Step(s, id, p, line).shared == s && Step(s, id, p, line).pick == p
    ensures moved ==> id == s.turnoActual && Step(s, id, p, line) == LoopTest(Move(s, id, p, fila, col))
  {
    moved, fila, col := false, 0, 0;
    if line.Some? && StartsWith(line.value, MoveKeyword) && id == s.turnoActual {
      var parts := Split(line.value, Space);
      if |parts| >= 3 && ParseInt(parts[1]).Some? && ParseInt(parts[2]).Some? {
        moved, fila, col := true, ParseInt(parts[1]).value, ParseInt(parts[2]).value;
      }
    }
  }

  /** What a move does to the board, the turn and the pick, case by case. */
  lemma MoveEffect(s: Shared, id: PlayerId, p: Pick, fila: int, col: int)
    requires Fits(s, p)
    ensures var o := Move(s, id, p, fila, col);
      && o.running && o.shared.board.WellFormed()
      && (!s.board.CanFlip(fila, col) ==> o.shared == s && o.pick == p)
      && (s.board.CanFlip(fila, col) ==>
            (o.shared.juegoTerminado <==> s.juegoTerminado || o.shared.board.Complete()))
      && (s.board.CanFlip(fila, col) && p.jugadaActual == 0 ==>
            o.shared.board == s.board.Reveal(fila, col) && o.shared.turnoActual == s.turnoActual &&
            o.pick == Pick(1, fila, col))
      && (s.board.CanFlip(fila, col) && p.jugadaActual != 0 &&
          s.board.Reveal(fila, col).Matches(p.filaPrimera, p.colPrimera, fila, col) ==>
            o.shared.board == s.board.Reveal(fila, col) && o.shared.turnoActual == s.turnoActual &&
            o.pick == NoPick)
      && (s.board.CanFlip(fila, col) && p.jugadaActual != 0 &&
          !s.board.Reveal(fila, col).Matches(p.filaPrimera, p.colPrimera, fila, col) ==>
            o.shared.board == s.board.Reveal(fila, col).Hide(p.filaPrimera, p.colPrimera, fila, col) &&
            o.shared.turnoActual == JavaRem(s.turnoActual + 1, 2) && o.pick == NoPick)
  {
    if s.board.CanFlip(fila, col) {
      FinishEffect(Accepted(s, id, p, fila, col));
    }
  }

  /** The end-of-game check touches nothing but the flag and the output. */
  lemma FinishEffect(o: Outcome)
    requires o.shared.board.WellFormed()
    ensures Finish(o).shared.board == o.shared.board && Finish(o).shared.turnoActual == o.shared.turnoActual
    ensures Finish(o).pick == o.pick && Finish(o).running == o.running
    ensures Finish(o).shared.juegoTerminado <==> o.shared.juegoTerminado || o.shared.board.Complete()
  {
  }

  /** (turnoActual + 1) % 2 hands the turn to the other player. */
  lemma NextTurn(turno: int)
    requires turno == 0 || turno == 1
    ensures JavaRem(turno + 1, 2) == 1 - turno
  {
  }

  /** The end-of-game check only appends to what was sent before it. */
  lemma FinishAppends(o: Outcome)
    requires o.shared.board.WellFormed()
    ensures Finish(o).shared == Finish(o.(sent := [])).shared
    ensures Finish(o).pick == o.pick && Finish(o).running == o.running
    ensures Finish(o).sent == o.sent + Finish(o.(sent := [])).sent
  {
  }

  /** Every delivered line keeps the invariant. */
  lemma StepPreservesInv(sys: System, id: PlayerId, line: Option<JString>)
    requires Inv(sys)
    ensures Inv(Deliver(sys, id, line))
  {
    if sys.running[id] {
      var o := Step(sys.shared, id, sys.picks[id], line);
      StepKeepsParts(sys, id, line);
      InvOfParts(sys, id, o);
    }
  }

  /** The invariant, assembled from what one player's turn did. */
  lemma InvOfParts(sys: System, id: PlayerId, o: Outcome)
    requires Inv(sys) && Keeps(sys.shared.board, o.shared.board)
    requires o.shared.turnoActual == 0 || o.shared.turnoActual == 1
    requires PickValid(o.shared.board, o.pick) && PickValid(o.shared.board, sys.picks[1 - id])
    requires o.shared.turnoActual != id ==> o.pick.jugadaActual == 0
    requires o.shared.turnoActual == id ==> sys.picks[1 - id].jugadaActual == 0
    requires o.shared.board.filas > 0 && o.shared.board.columnas > 0 && o.shared.board.Complete() ==>
      o.shared.juegoTerminado
    requires sys.shared.juegoTerminado ==> o.shared == sys.shared
    requires o.shared.juegoTerminado && !sys.shared.juegoTerminado ==>
      o.shared.board.Complete() && o.shared.turnoActual == id
    requires o.running ==> !o.shared.juegoTerminado
    ensures Inv(System(o.shared, sys.picks[id := o.pick], sys.running[id := o.running], sys.sent + o.sent))
  {
    var picks := sys.picks[id := o.pick];
    var other: PlayerId := 1 - id;
    assert forall k: PlayerId :: picks[k] == if k == id then o.pick else sys.picks[other];
  }

  /** What one turn of the player's loop keeps of the invariant. */
  lemma StepKeepsParts(sys: System, id: PlayerId, line: Option<JString>)
    requires Inv(sys) && sys.running[id]
    ensures var o := Step(sys.shared, id, sys.picks[id], line);
      && (o.shared.turnoActual == 0 || o.shared.turnoActual == 1)
      && PickValid(o.shared.board, o.pick) && PickValid(o.shared.board, sys.picks[1 - id])
      && (o.shared.turnoActual != id ==> o.pick.jugadaActual == 0)
      && (o.shared.turnoActual == id ==> sys.picks[1 - id].jugadaActual == 0)
      && (o.shared.board.filas > 0 && o.shared.board.columnas > 0 && o.shared.board.Complete() ==>
            o.shared.juegoTerminado)
      && (sys.shared.juegoTerminado ==> o.shared == sys.shared)
      && (o.shared.juegoTerminado && !sys.shared.juegoTerminado ==>
            o.shared.board.Complete() && o.shared.turnoActual == id)
  {
    var s, p := sys.shared, sys.picks[id];
    var other: PlayerId := 1 - id;
    assert PickValid(s.board, p) && PickValid(s.board, sys.picks[other]);
    assert s.turnoActual != id ==> p.jugadaActual == 0;
    assert s.turnoActual == id ==> sys.picks[other].jugadaActual == 0;
    var moved, fila, col := StepCases(s, id, p, line);
    if moved {
      MoveEffect(s, id, p, fila, col);
      NextTurn(s.turnoActual);
    }
  }

  /** A line read after the game is over changes nothing but the handler that reads
      it: its loop ends, and all it can still send is "No es tu turno.", because the
      player whose turn it is ended the game and has left the loop. */
  lemma LateLine(sys: System, id: PlayerId, line: Option<JString>)
    requires Inv(sys) && sys.shared.juegoTerminado
    ensures var r := Deliver(sys, id, line);
      && r.shared == sys.shared && r.picks == sys.picks
      && !r.running[id] && r.running[1 - id] == sys.running[1 - id]
      && (r.sent == sys.sent ||
          (sys.running[id] && id != sys.shared.turnoActual && r.sent == sys.sent + [ToPlayer(id, NotYourTurn)]))
  {
  }

  /** Once the game is over the board and the turn never change again, and at most one
      more line goes out: the other player's handler, already waiting in readLine,
      answers one more MOVE with "No es tu turno." before its loop test ends it. */
  lemma {:induction false} GameOverFreezes(sys: System, schedule: seq<(PlayerId, Option<JString>)>)
    requires Inv(sys) && sys.shared.juegoTerminado
    ensures var r := Run(sys, schedule); var other: PlayerId := 1 - sys.shared.turnoActual;
      && r.shared == sys.shared
      && (r.sent == sys.sent || (sys.running[other] && r.sent == sys.sent + [ToPlayer(other, NotYourTurn)]))
    decreases |schedule|
  {
    if schedule != [] {
      var id, line := schedule[0].0, schedule[0].1;
      LateLine(sys, id, line);
      StepPreservesInv(sys, id, line);
      GameOverFreezes(Deliver(sys, id, line), schedule[1..]);
    }
  }

  /** The invariant holds after any schedule of lines. */
  lemma {:induction false} RunPreservesInv(sys: System, schedule: seq<(PlayerId, Option<JString>)>)
    requires Inv(sys)
    ensures Inv(Run(sys, schedule))
    decreases |schedule|
  {
    if schedule != [] {
      StepPreservesInv(sys, schedule[0].0, schedule[0].1);
      RunPreservesInv(Deliver(sys, schedule[0].0, schedule[0].1), schedule[1..]);
    }
  }

  /** A card that is face up and not a pending first card stays face up: only a
      mismatch turns cards back, and then only the two cards just compared. */
  lemma SettledCellsStay(sys: System, id: PlayerId, line: Option<JString>, i: int, j: int)
    requires Inv(sys) && sys.shared.board.InBounds(i, j) && sys.shared.board.revelado[i][j]
    requires forall k: PlayerId :: sys.picks[k].jugadaActual == 1 ==>
      (sys.picks[k].filaPrimera, sys.picks[k].colPrimera) != (i, j)
    ensures Deliver(sys, id, line).shared.board.revelado[i][j]
  {
    if sys.running[id] {
      var s, p := sys.shared, sys.picks[id];
      var moved, fila, col := StepCases(s, id, p, line);
      if moved {
        MoveEffect(s, id, p, fila, col);
      }
    }
  }

  /** Lines that are not moves, and moves with fewer than three parts, change nothing
      and send nothing; the loop goes on unless the game is over. */
  lemma IgnoredLines(s: Shared, id: PlayerId, p: Pick, line: JString)
    requires Fits(s, p)
    requires !StartsWith(line, MoveKeyword) ||
             (id == s.turnoActual && |Split(line, Space)| < 3)
    ensures Step(s, id, p, Some(line)) == Outcome(s, p, !s.juegoTerminado, [])
  {
  }

  /** A move out of turn is answered with "No es tu turno." and changes nothing, even
      when the game ended while the handler was waiting for the line. */
  lemma OutOfTurn(s: Shared, id: PlayerId, p: Pick, line: JString)
    requires Fits(s, p) && StartsWith(line, MoveKeyword) && id != s.turnoActual
    ensures Step(s, id, p, Some(line)) == Outcome(s, p, !s.juegoTerminado, [ToPlayer(id, NotYourTurn)])
  {
  }

  /** A first card: refused, nothing changes and the player is told; accepted, the card
      turns, it is remembered and the handler waits for the second. */
  lemma FirstPick(s: Shared, id: PlayerId, p: Pick, fila: int, col: int)
    requires Fits(s, p) && p.jugadaActual == 0
    ensures var o := Move(s, id, p, fila, col);
      && (!s.board.CanFlip(fila, col) ==> o == Outcome(s, p, true, [ToPlayer(id, InvalidMove)]))
      && (s.board.CanFlip(fila, col) ==>
            && o.pick == Pick(1, fila, col)
            && o.shared.board == s.board.Reveal(fila, col)
            && o.shared.turnoActual == s.turnoActual
            && o.sent[..2] == [ToAll(Wire(BoardString(s.board.Reveal(fila, col)))), ToPlayer(id, AwaitSecond)])
  {
  }

  /** A second card that matches the first: both stay face up, the turn stays, the
      pick is cleared. */
  lemma SecondPickMatch(s: Shared, id: PlayerId, p: Pick, fila: int, col: int)
    requires Fits(s, p) && p.jugadaActual != 0 && s.board.CanFlip(fila, col)
    requires s.board.Reveal(fila, col).Matches(p.filaPrimera, p.colPrimera, fila, col)
    ensures var o := Move(s, id, p, fila, col);
      && o.shared.board == s.board.Reveal(fila, col)
      && o.shared.board.revelado[p.filaPrimera][p.colPrimera] && o.shared.board.revelado[fila][col]
      && o.shared.turnoActual == s.turnoActual
      && o.pick == NoPick
      && o.sent[1] == ToAll(PairFound(id))
  {
  }

  /** A second card that does not match: both cards turn back, the turn passes to the
      other player, the pick is cleared. */
  lemma SecondPickMismatch(s: Shared, id: PlayerId, p: Pick, fila: int, col: int)
    requires Fits(s, p) && p.jugadaActual != 0 && s.board.CanFlip(fila, col)
    requires s.turnoActual == 0 || s.turnoActual == 1
    requires !s.board.Reveal(fila, col).Matches(p.filaPrimera, p.colPrimera, fila, col)
    ensures var o := Move(s, id, p, fila, col);
      && o.shared.board == s.board.Reveal(fila, col).Hide(p.filaPrimera, p.colPrimera, fila, col)
      && !o.shared.board.revelado[p.filaPrimera][p.colPrimera] && !o.shared.board.revelado[fila][col]
      && o.shared.turnoActual == 1 - s.turnoActual
      && o.pick == NoPick
      && o.sent[2] == ToAll(TurnOf(1 - s.turnoActual))
  {
    NextTurn(s.turnoActual);
  }

  /** An accepted card that completes the board ends the game, with the announcement
      as the last line sent. */
  lemma CompletionEndsGame(s: Shared, id: PlayerId, p: Pick, fila: int, col: int)
    requires Fits(s, p) && !s.juegoTerminado && s.board.CanFlip(fila, col)
    ensures var o := Move(s, id, p, fila, col);
      o.shared.board.WellFormed() &&
      (o.shared.board.Complete() <==> o.shared.juegoTerminado) &&
      (o.shared.board.Complete() ==> o.sent[|o.sent| - 1] == ToAll(GameOver))
  {
  }

  /** The line the client sends for a click, "MOVE fila col", is parsed back into that
      move. */
  lemma MoveLine(s: Shared, id: PlayerId, p: Pick, fila: Int32, col: Int32)
    requires Fits(s, p) && id == s.turnoActual
    ensures Step(s, id, p, Some(ClientLine(fila, col))) == LoopTest(Move(s, id, p, fila, col))
  {
    ParseIntToString(fila);
    ParseIntToString(col);
    SplitClientLine(IntToString(fila), IntToString(col));
  }

  /** MemoryClient.sendMove: "MOVE " + fila + " " + col. */
  function ClientLine(fila: Int32, col: Int32): JString
  {
    MoveKeyword + [Space] + IntToString(fila) + [Space] + IntToString(col)
  }

  lemma SplitClientLine(f: JString, c: JString)
    requires Space !in f && Space !in c && c != []
    ensures StartsWith(MoveKeyword + [Space] + f + [Space] + c, MoveKeyword)
    ensures Split(MoveKeyword + [Space] + f + [Space] + c, Space) == [MoveKeyword, f, c]
  {
    var line := MoveKeyword + [Space] + f + [Space] + c;
    assert line[..4] == MoveKeyword;
    JoinClientParts(f, c);
    SplitJoin([MoveKeyword, f, c], Space);
  }

  lemma JoinClientParts(f: JString, c: JString)
    ensures Join([MoveKeyword, f, c], Space) == MoveKeyword + [Space] + f + [Space] + c
    ensures Space !in MoveKeyword
  {
    var parts := [MoveKeyword, f, c];
    assert MoveKeyword == [77, 79, 86, 69];
    assert parts[1..] == [f, c];
    assert Join([f, c], Space) == f + [Space] + Join([c], Space);
  }
}
