/** MemoryServer and its ClientHandler as classes: the server owns the engine, the
    turn and the end-of-game flag, and a log of every line written to the players;
    each handler keeps its own pick and performs one turn of its read loop per line. */
module Server {
  import opened JavaText
  import opened Game
  import opened Snapshot
  import opened Turns

  class MemoryServer {
    const gameLogic: GameLogic
    var turnoActual: int
    var juegoTerminado: bool
    /** Every line written to the players so far, in order; a broadcast is one entry. */
    var sent: seq<Outgoing>

    ghost predicate Valid()
      reads gameLogic, gameLogic.tablero, gameLogic.revelado
    {
      gameLogic.Valid()
    }

    /** The fields the two handlers share, as a value. */
    ghost function State(): Shared
      requires Valid()
      reads this, gameLogic, gameLogic.tablero, gameLogic.revelado
    {
      Shared(gameLogic.board, turnoActual, juegoTerminado)
    }

    constructor (gameLogic: GameLogic)
      requires gameLogic.Valid()
      ensures Valid() && this.gameLogic == gameLogic
      ensures turnoActual == 0 && !juegoTerminado && sent == []
    {
      this.gameLogic := gameLogic;
      turnoActual := 0;
      juegoTerminado := false;
      sent := [];
    }

    /** broadcast: the message goes to every connected player. */
    method Broadcast(message: JString)
      modifies this
      ensures sent == old(sent) + [ToAll(message)]
      ensures turnoActual == old(turnoActual) && juegoTerminado == old(juegoTerminado)
    {
      sent := sent + [ToAll(message)];
    }

    /** getBoardString: the nested loops over the engine's arrays, appending each
        cell's text and a space, and a newline after each row. */
    method GetBoardString() returns (s: JString)
      requires Valid()
      ensures s == BoardString(gameLogic.board)
    {
      ghost var b := gameLogic.board;
      ghost var rows := seq(b.filas, i requires 0 <= i < b.filas => RowText(b, i));
      var sb: JString := [];
      var i := 0;
      while i < gameLogic.tablero.Length0
        invariant 0 <= i <= b.filas
        invariant sb == Terminated(rows[..i], Newline)
      {
        var row := RowString(i);
        TerminatedSnoc(rows[..i], rows[i], Newline);
        assert rows[..i + 1] == rows[..i] + [rows[i]];
        sb := sb + row + [Newline];
        i := i + 1;
      }
      assert rows[..i] == rows;
      s := sb;
    }

    /** The inner loop of getBoardString: the text of row i. */
    method RowString(i: int) returns (row: JString)
      requires Valid() && 0 <= i < gameLogic.filas
      ensures row == RowText(gameLogic.board, i)
    {
      var tablero := gameLogic.tablero;
      var revelado := gameLogic.revelado;
      ghost var v := Visible(gameLogic.board)[i];
      row := [];
      var j := 0;
      while j < tablero.Length1
        invariant 0 <= j <= tablero.Length1 && |v| == tablero.Length1
        invariant row == Terminated(v[..j], Space)
      {
        TerminatedSnoc(v[..j], v[j], Space);
        assert v[..j + 1] == v[..j] + [v[j]];
        assert v[j] == if revelado[i, j] then tablero[i, j] else Hidden;
        if revelado[i, j] {
          row := row + tablero[i, j];
        } else {
          row := row + Hidden;
        }
        row := row + [Space];
        j := j + 1;
      }
      assert v[..j] == v;
    }

    /** broadcastTablero: the snapshot, with its newlines replaced by '#', to everyone. */
    method BroadcastTablero()
      requires Valid()
      modifies this
      ensures sent == old(sent) + [ToAll(Wire(BoardString(gameLogic.board)))]
      ensures turnoActual == old(turnoActual) && juegoTerminado == old(juegoTerminado)
    {
      var boardStr := GetBoardString();
      boardStr := Replace(boardStr, Newline, Hash);
      Broadcast(boardStr);
    }

    /** What start() sends once both players are connected. */
    method Start()
      requires Valid()
      modifies this
      ensures sent == old(sent) + [ToAll(GameStarted), ToAll(Wire(BoardString(gameLogic.board)))]
      ensures turnoActual == old(turnoActual) && juegoTerminado == old(juegoTerminado)
    {
      Broadcast(GameStarted);
      BroadcastTablero();
    }
  }

  class ClientHandler {
    const server: MemoryServer
    const playerId: PlayerId
    var jugadaActual: int
    var filaPrimera: int
    var colPrimera: int
    /** False once run() has left its read loop. */
    var running: bool

    ghost function Current(): Pick
      reads this
    {
      Pick(jugadaActual, filaPrimera, colPrimera)
    }

    constructor (server: MemoryServer, playerId: PlayerId)
      ensures this.server == server && this.playerId == playerId
      ensures Current() == NoPick && running
    {
      this.server := server;
      this.playerId := playerId;
      jugadaActual, filaPrimera, colPrimera := 0, -1, -1;
      running := true;
    }

    /** sendMessage: one line to this handler's player. */
    method SendMessage(msg: JString)
      modifies server
      ensures server.sent == old(server.sent) + [ToPlayer(playerId, msg)]
      ensures server.turnoActual == old(server.turnoActual) && server.juegoTerminado == old(server.juegoTerminado)
    {
      server.sent := server.sent + [ToPlayer(playerId, msg)];
    }

    /** The greeting run() sends before it starts reading. */
    method Greet()
      modifies server
      ensures server.sent == old(server.sent) + [ToPlayer(playerId, Welcome(playerId))]
      ensures server.turnoActual == old(server.turnoActual) && server.juegoTerminado == old(server.juegoTerminado)
    {
      SendMessage(Welcome(playerId));
    }

    /** One turn of the read loop of run(): the line read (None at the end of the
        input), the loop body, and the loop test that decides whether the next line is
        read. It does exactly what Turns.Step describes. */
    method HandleLine(line: Option<JString>)
      requires running && server.Valid() && Fits(server.State(), Current())
      modifies this, server, server.gameLogic, server.gameLogic.revelado
      ensures server.Valid()
      ensures var o := Step(old(server.State()), playerId, old(Current()), line);
        && server.State() == o.shared && Current() == o.pick && running == o.running
        && server.sent == old(server.sent) + o.sent
    {
      if line.None? {
        running := false;
        return;
      }
      Body(line.value);
      running := running && !server.juegoTerminado;
    }

    /** The loop body for one line read; every `continue` returns to the loop test. */
    method Body(inputLine: JString)
      requires running && server.Valid() && Fits(server.State(), Current())
      modifies this, server, server.gameLogic, server.gameLogic.revelado
      ensures server.Valid()
      ensures var o := Turns.Body(old(server.State()), playerId, old(Current()), inputLine);
        && server.State() == o.shared && Current() == o.pick && running == o.running
        && server.sent == old(server.sent) + o.sent
    {
      ghost var s0, p0 := server.State(), Current();
      if !StartsWith(inputLine, MoveKeyword) {
        return;
      }
      if playerId != server.turnoActual {
        SendMessage(NotYourTurn);
        return;
      }
      var parts := Split(inputLine, Space);
      if |parts| < 3 {
        return;
      }
      var fila := ParseInt(parts[1]);
      var col := ParseInt(parts[2]);
      if fila.None? || col.None? {
        running := false;
        return;
      }
      assert Turns.Body(s0, playerId, p0, inputLine) == Move(s0, playerId, p0, fila.value, col.value);
      Play(fila.value, col.value);
    }

    /** The part of the loop body after the coordinates are parsed: the card is tried
        as first or second card and, if it was accepted, the end of the game checked. */
    method Play(fila: int, col: int)
      requires server.Valid() && Fits(server.State(), Current())
      requires playerId == server.turnoActual
      modifies this, server, server.gameLogic, server.gameLogic.revelado
      ensures server.Valid()
      ensures var o := Move(old(server.State()), playerId, old(Current()), fila, col);
        && server.State() == o.shared && Current() == o.pick && running == old(running)
        && server.sent == old(server.sent) + o.sent
    {
      ghost var s0, p0, sent0 := server.State(), Current(), server.sent;
      var accepted;
      if jugadaActual == 0 {
        accepted := FirstCard(fila, col);
      } else {
        accepted := SecondCard(fila, col);
      }
      if accepted {
        ghost var a := Accepted(s0, playerId, p0, fila, col);
        FinishAppends(a);
        CheckGameOver(a);
        ghost var tail := Finish(a.(sent := [])).sent;
        assert server.sent == sent0 + a.sent + tail;
        assert sent0 + a.sent + tail == sent0 + (a.sent + tail);
      }
    }

    /** The first-card branch: voltearCarta, then the pick is remembered, the board
        goes out and the player is asked for the second card. */
    method FirstCard(fila: int, col: int) returns (accepted: bool)
      requires server.Valid() && Fits(server.State(), Current()) && jugadaActual == 0
      modifies this, server, server.gameLogic, server.gameLogic.revelado
      ensures server.Valid()
      ensures accepted == old(server.State()).board.CanFlip(fila, col) && running == old(running)
      ensures !accepted ==> && server.State() == old(server.State()) && Current() == old(Current())
                            && server.sent == old(server.sent) + [ToPlayer(playerId, InvalidMove)]
      ensures accepted ==> var o := Accepted(old(server.State()), playerId, old(Current()), fila, col);
        server.State() == o.shared && Current() == o.pick && server.sent == old(server.sent) + o.sent
    {
      ghost var s0, p0, sent0 := server.State(), Current(), server.sent;
      accepted := server.gameLogic.VoltearCarta(fila, col);
      if !accepted {
        SendMessage(InvalidMove);
        return;
      }
      ghost var b1 := s0.board.Reveal(fila, col);
      ghost var shown := ToAll(Wire(BoardString(b1)));
      filaPrimera, colPrimera, jugadaActual := fila, col, 1;
      server.BroadcastTablero();
      SendMessage(AwaitSecond);
      assert server.sent == sent0 + [shown, ToPlayer(playerId, AwaitSecond)];
      assert Accepted(s0, playerId, p0, fila, col)
          == Outcome(s0.(board := b1), Pick(1, fila, col), true, [shown, ToPlayer(playerId, AwaitSecond)]);
    }

    /** The second-card branch: voltearCarta, the board goes out, and the two cards are
        compared; on a mismatch both are turned back, the board goes out again and the
        turn passes. Either way the pick is cleared. */
    method SecondCard(fila: int, col: int) returns (accepted: bool)
      requires server.Valid() && Fits(server.State(), Current()) && jugadaActual != 0
      modifies this, server, server.gameLogic, server.gameLogic.revelado
      ensures server.Valid()
      ensures accepted == old(server.State()).board.CanFlip(fila, col) && running == old(running)
      ensures !accepted ==> && server.State() == old(server.State()) && Current() == old(Current())
                            && server.sent == old(server.sent) + [ToPlayer(playerId, InvalidMove)]
      ensures accepted ==> var o := Accepted(old(server.State()), playerId, old(Current()), fila, col);
        server.State() == o.shared && Current() == o.pick && server.sent == old(server.sent) + o.sent
    {
      accepted := server.gameLogic.VoltearCarta(fila, col);
      if !accepted {
        SendMessage(InvalidMove);
        return;
      }
      Compare(fila, col);
      ClearPick();
    }

    /** The rest of the second-card branch once voltearCarta has turned (fila, col), up
        to the point where the pick is cleared. */
    method Compare(fila: int, col: int)
      requires server.Valid() && server.gameLogic.board.InBounds(fila, col)
      requires server.gameLogic.board.InBounds(filaPrimera, colPrimera)
      modifies server, server.gameLogic, server.gameLogic.revelado
      ensures server.Valid()
      ensures var o := Compared(old(server.State()), playerId, Current(), fila, col);
        server.State() == o.shared && server.sent == old(server.sent) + o.sent
    {
      ghost var s1, sent0 := server.State(), server.sent;
      ghost var b1 := s1.board;
      ghost var shown := ToAll(Wire(BoardString(b1)));
      server.BroadcastTablero();
      var pareja := server.gameLogic.ComprobarSiCoinciden(filaPrimera, colPrimera, fila, col);
      if pareja {
        server.Broadcast(PairFound(playerId));
        assert server.sent == sent0 + [shown, ToAll(PairFound(playerId))];
      } else {
        ghost var b2 := b1.Hide(filaPrimera, colPrimera, fila, col);
        TurnBack(filaPrimera, colPrimera, fila, col);
        assert server.sent == sent0 + [shown, ToAll(Wire(BoardString(b2))), ToAll(TurnOf(server.turnoActual))];
      }
    }

    /** The three assignments that forget the first card. */
    method ClearPick()
      modifies this
      ensures Current() == NoPick && running == old(running)
    {
      jugadaActual, filaPrimera, colPrimera := 0, -1, -1;
    }

    /** The mismatch path: both cards face down again, the board goes out and the turn
        passes to the other player, who is told so. */
    method TurnBack(fila1: int, col1: int, fila2: int, col2: int)
      requires server.Valid() && server.gameLogic.board.InBounds(fila1, col1)
      requires server.gameLogic.board.InBounds(fila2, col2)
      modifies server, server.gameLogic, server.gameLogic.revelado
      ensures server.Valid()
      ensures var b2 := old(server.gameLogic.board).Hide(fila1, col1, fila2, col2);
        && server.gameLogic.board == b2
        && server.turnoActual == JavaRem(old(server.turnoActual) + 1, 2)
        && server.juegoTerminado == old(server.juegoTerminado)
        && server.sent == old(server.sent) + [ToAll(Wire(BoardString(b2))), ToAll(TurnOf(server.turnoActual))]
    {
      server.gameLogic.EsconderCartas(fila1, col1, fila2, col2);
      server.BroadcastTablero();
      server.turnoActual := JavaRem(server.turnoActual + 1, 2);
      server.Broadcast(TurnOf(server.turnoActual));
    }

    /** The end-of-game check at the bottom of the loop body, for the accepted card
        whose outcome `a` the server is now in. */
    method CheckGameOver(ghost a: Outcome)
      requires server.Valid() && server.State() == a.shared
      modifies server
      ensures server.State() == Finish(a).shared
      ensures server.sent == old(server.sent) + Finish(a.(sent := [])).sent
    {
      var terminado := server.gameLogic.VerificarJuegoTerminado();
      if terminado {
        server.Broadcast(GameOver);
        server.juegoTerminado := true;
      }
    }
  }
}
