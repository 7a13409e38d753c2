# MemoryFX game core in Dafny

MemoryFX is a two-player memory card game. A `GameLogic` object owns a `filas × columnas`
grid of single-character card tokens and a parallel grid of `revelado` (face-up) flags.
A `MemoryServer` owns one such engine, the shared turn `turnoActual` and the flag
`juegoTerminado`. For each connected player it runs a `ClientHandler`, whose read loop
handles lines of the form `MOVE fila col`:

- a first card is turned and remembered;
- a second card is turned and compared with the first;
- a pair keeps the turn;
- a mismatch hides both cards again and passes the turn;
- the game ends when every card is face up.

After every change the server sends the whole board as text. A face-down card shows as
`???`, every cell is followed by a space and every row by a newline. Each newline is
then replaced by `#`, so the board travels as a single line.

The project has five modules.

- `JavaText` (`java_text.dfy`) holds the Java library behaviour the core relies on:
  - strings as UTF-16 code units, and the `int` range;
  - `%` on `int`;
  - `String.replace` of one character;
  - `String.split` with its default limit;
  - `Integer.parseInt` and `Integer.toString`.

  A lemma about each states what the core depends on. For example, `Join` inverts
  `Fields`, and `parseInt` reads back what `toString` writes.
- `Game` (`game.dfy`) is the engine. `GameLogic` is a class over the two `array2`s.
  - A ghost field `board` holds the arrays' contents as a `Board` value. `Valid()` ties
    the two together.
  - Every method is proved against the `Board` functions: `Reveal`, `Hide`, `Matches`
    and `Complete`.
  - The constructor's loops (`MakeCards`, `Deal`, `DealRow`) are proved to deal the
    shuffled deck row by row with every card face down. Each token of the deck occurs
    exactly twice.
- `Snapshot` (`snapshot.dfy`) holds:
  - the board text as a function, `BoardString`;
  - the wire form, `Wire`, and the client's inverse replacement, `Unwire`;
  - a reader, `Decode`, that recovers the visible grid from the text;
  - lemmas: the wire form is one line; face-down tokens never appear in it; `Unwire`
    undoes `Wire` while no face-up token contains `#`.

  The third pair's token is `#` itself (33 + 2 = 35), and every game of at least three
  pairs deals it (`HashTokenDealt`); the default 5 × 8 board has twenty. On every board
  where a card showing `#` is face up, the client's `replace("#", "\n")` no longer gives
  back the server's text (`HashTokenBreaksUnwire`).
- `Turns` (`turns.dfy`) is the handler's loop body as a state machine on values:
  - `Step` is one iteration for one player: its one input line (or the end of input),
    the loop body, and then the loop test `!juegoTerminado` that decides whether the
    handler reads again;
  - `Deliver` applies a step to the two-player `System`;
  - `Run` applies a whole schedule of lines.

  The invariant `Inv` is preserved by every step:
  - the turn is 0 or 1;
  - only the player whose turn it is can hold a first card;
  - a pending first card is face up;
  - a complete, non-empty board has ended the game.

  Once the game is over, the board and the turn never change again. The player who
  ended the game has left the loop. The other player's handler may already be waiting
  in `readLine`, because it tests the flag before it reads. It answers at most one more
  line, with "No es tu turno.", and then leaves the loop (`GameOverFreezes`).
- `Server` (`server.dfy`) holds `MemoryServer` and `ClientHandler` as classes over those
  fields.
  - `GetBoardString` is the nested `StringBuilder` loop, proved equal to `BoardString`.
  - `HandleLine` performs one iteration of `run()`'s loop on the objects. It is proved to
    leave the server, the handler and the output log exactly as `Turns.Step` says.

Each `sendMessage`/`broadcast` appends one entry to the server's log `sent`; a broadcast
is one `ToAll` entry. The input line is a parameter: `None` stands for the end of the
input. `Collections.shuffle` is a parameter too: any permutation of the generated deck.

## Model

| member | source | states |
|---|---|---|
| JavaText.ReplaceRemoves | src/main/java/org/example/memoryfx/MemoryServer.java:54 | for `from` ≠ `to`: after `replace(from, to)` no `from` is left, the length is kept, and every other unit is in place |
| JavaText.ReplaceRoundTrip | src/main/java/org/example/memoryfx/MemoryClient.java:58 | replacing back recovers the original string whenever the new unit did not occur in it |
| JavaText.JavaRem | src/main/java/org/example/memoryfx/MemoryServer.java:159 | Java's `%`: the remainder has the dividend's sign, is smaller than the divisor in magnitude, and differs from the dividend by a multiple of it |
| JavaText.StartsWith | src/main/java/org/example/memoryfx/MemoryServer.java:114 | `startsWith`: the prefix is an initial segment of the line |
| JavaText.Replace | src/main/java/org/example/memoryfx/MemoryServer.java:54 | `String.replace` of one unit by another, unit by unit |
| JavaText.Fields | src/main/java/org/example/memoryfx/MemoryServer.java:122 | splitting on one unit always yields at least one piece; empty pieces are kept |
| JavaText.FieldsCount | src/main/java/org/example/memoryfx/MemoryServer.java:122 | there is one piece more than there are separators |
| JavaText.JoinFields | src/main/java/org/example/memoryfx/MemoryServer.java:122 | gluing the pieces of the split back with the separator gives the string back |
| JavaText.FieldsLackSeparator | src/main/java/org/example/memoryfx/MemoryServer.java:122 | no piece of the split contains the separator |
| JavaText.FieldsJoin | src/main/java/org/example/memoryfx/MemoryServer.java:122 | splitting one or more separator-free pieces joined by the separator gives exactly those pieces |
| JavaText.Split | src/main/java/org/example/memoryfx/MemoryServer.java:122 | `split(" ")` with the default limit: a line without a space is one piece; otherwise no piece contains the separator and the last piece is not empty |
| JavaText.DropTrailingEmpty | src/main/java/org/example/memoryfx/MemoryServer.java:122 | the result is a prefix of the pieces that does not end in an empty piece, and every piece dropped is empty |
| JavaText.SplitJoin | src/main/java/org/example/memoryfx/MemoryServer.java:122 | two or more separator-free pieces joined by the separator split back into exactly those pieces when the last is not empty |
| JavaText.ParseInt | src/main/java/org/example/memoryfx/MemoryServer.java:124-125 | `Integer.parseInt`: an optional sign and at least one digit, with a value in the `int` range; anything else is the `NumberFormatException` |
| JavaText.IntToString | src/main/java/org/example/memoryfx/MemoryServer.java:108 | `Integer.toString` as used by string concatenation: a minus sign for negatives, then the decimal digits |
| JavaText.NatDigits | src/main/java/org/example/memoryfx/MemoryClient.java:44 | the decimal text of a number is non-empty, all digits, and free of space, newline and `#` |
| JavaText.DigitsValueOfNatDigits | src/main/java/org/example/memoryfx/MemoryServer.java:124-125 | reading the decimal digits of n gives n |
| JavaText.ParseIntToString | src/main/java/org/example/memoryfx/MemoryServer.java:124-125 | `Integer.parseInt` accepts every `int` that `toString` writes and returns that int; the text has no space |
| Game.Cards | src/main/java/org/example/memoryfx/GameLogic.java:27-34 | the generated deck has two cards per pair |
| Game.Token | src/main/java/org/example/memoryfx/GameLogic.java:29-33 | pair k gets the one-unit string of `char` 33 + k, wrapping as a `char` does |
| Game.TokensDistinct | src/main/java/org/example/memoryfx/GameLogic.java:29-33 | the characters the counter produces for different pairs are different tokens, as long as a `char` does not wrap |
| Game.CardsLack | src/main/java/org/example/memoryfx/GameLogic.java:27-34 | for a pair index below 65536, that pair's token does not occur among the cards of the pairs before it |
| Game.CardsTwice | src/main/java/org/example/memoryfx/GameLogic.java:27-34 | each of the `(filas*columnas)/2` tokens 33, 34, … occurs exactly twice in the deck |
| Game.ShuffledTokens | src/main/java/org/example/memoryfx/GameLogic.java:27-43 | after any shuffle, each token occurs exactly twice, and every card is one of the tokens |
| Game.MakeCards | src/main/java/org/example/memoryfx/GameLogic.java:27-34 | the loop with its advancing character builds exactly the deck `Cards` |
| Game.DealRow | src/main/java/org/example/memoryfx/GameLogic.java:42-45 | the inner loop puts the next `columnas` cards into row i face down and leaves every other row alone |
| Game.Deal | src/main/java/org/example/memoryfx/GameLogic.java:40-46 | the grid read row by row is the shuffled deck, and every card is face down |
| Game.GameLogic.constructor | src/main/java/org/example/memoryfx/GameLogic.java:13-47 | the board holds the shuffled deck row by row, every card face down, with the given dimensions |
| Game.GameLogic.Create | src/main/java/org/example/memoryfx/GameLogic.java:13-24 | construction fails exactly when `filas*columnas` is odd (IllegalArgumentException) or a dimension is negative (the array allocation fails); otherwise, as the constructor |
| Game.Board.SetRevealed | src/main/java/org/example/memoryfx/GameLogic.java:56 | one flag takes the new value; the tokens, the shape and every other flag stay |
| Game.Board.CanFlip | src/main/java/org/example/memoryfx/GameLogic.java:50-55 | a card can be turned exactly when it is on the board and face down |
| Game.Board.Reveal | src/main/java/org/example/memoryfx/GameLogic.java:56 | the board with one card turned face up |
| Game.Board.Hide | src/main/java/org/example/memoryfx/GameLogic.java:67-70 | the board with both named cards face down |
| Game.Board.Matches | src/main/java/org/example/memoryfx/GameLogic.java:60-65 | both cards face up and showing the same token |
| Game.Board.Complete | src/main/java/org/example/memoryfx/GameLogic.java:72-81 | every card is face up |
| Game.GameLogic.VoltearCarta | src/main/java/org/example/memoryfx/GameLogic.java:49-58 | true exactly for an on-board, face-down cell; then only that cell turns face up, otherwise nothing changes |
| Game.GameLogic.SetFaceUp | src/main/java/org/example/memoryfx/GameLogic.java:56 | the array write changes the board by exactly that flag |
| Game.RevealTwiceFails | src/main/java/org/example/memoryfx/GameLogic.java:53-56 | a card just turned cannot be turned again until it is hidden |
| Game.GameLogic.ComprobarSiCoinciden | src/main/java/org/example/memoryfx/GameLogic.java:60-65 | false if either card is face down, otherwise whether the two tokens are equal; nothing changes |
| Game.MatchesSymmetric | src/main/java/org/example/memoryfx/GameLogic.java:60-65 | the comparison is symmetric, and a card matches itself exactly when it is face up |
| Game.GameLogic.EsconderCartas | src/main/java/org/example/memoryfx/GameLogic.java:67-70 | both named cards turn face down; every other flag and every token stays |
| Game.HideUndoesReveals | src/main/java/org/example/memoryfx/GameLogic.java:49-70 | turning two face-down cards and then hiding them restores the board exactly |
| Game.GameLogic.VerificarJuegoTerminado | src/main/java/org/example/memoryfx/GameLogic.java:72-81 | true exactly when every card is face up |
| Snapshot.Visible | src/main/java/org/example/memoryfx/MemoryServer.java:66-74 | the grid the players see has the board's dimensions |
| Snapshot.Shown | src/main/java/org/example/memoryfx/MemoryServer.java:68-72 | a face-up cell shows its token, a face-down one `???` |
| Snapshot.RowText | src/main/java/org/example/memoryfx/MemoryServer.java:67-74 | one row: every shown cell followed by a space |
| Snapshot.BoardString | src/main/java/org/example/memoryfx/MemoryServer.java:62-78 | each row of shown cells, every cell followed by a space and every row by a newline |
| Snapshot.Wire | src/main/java/org/example/memoryfx/MemoryServer.java:54 | the board text with every newline replaced by `#` |
| Snapshot.Unwire | src/main/java/org/example/memoryfx/MemoryClient.java:58 | the client's replacement of every `#` by a newline |
| Snapshot.DecodeBoardString | src/main/java/org/example/memoryfx/MemoryServer.java:62-78 | while no token holds a space or a newline (true for at most 65513 pairs), the board text splits into one space-terminated cell per column and one newline-terminated line per row; each cell is its token if face up, else `???` |
| Snapshot.HiddenTokensNotSent | src/main/java/org/example/memoryfx/MemoryServer.java:68-72 | boards that differ only in face-down tokens produce the same text |
| Snapshot.WireIsOneLine | src/main/java/org/example/memoryfx/MemoryServer.java:54 | the broadcast form contains no newline and keeps the length |
| Snapshot.UnwireWire | src/main/java/org/example/memoryfx/MemoryClient.java:58 | the client's `replace("#", "\n")` undoes the server's replacement when the text held no `#` |
| Snapshot.BoardStringHashFree | src/main/java/org/example/memoryfx/MemoryServer.java:53-55 | while no face-up token contains `#`, the text has no `#` and the client recovers it exactly |
| Snapshot.HashTokenBreaksUnwire | src/main/java/org/example/memoryfx/MemoryClient.java:58 | on every board where a card whose token contains `#` is face up, the client's replacement no longer gives back the board text |
| Snapshot.HashTokenDealt | src/main/java/org/example/memoryfx/GameLogic.java:28-33 | the third pair's token is `#`, and every game of at least three pairs deals it |
| Server.MemoryServer.constructor | src/main/java/org/example/memoryfx/MemoryServer.java:13-22 | the server starts with turn 0, the game not over, and nothing sent |
| Server.MemoryServer.Broadcast | src/main/java/org/example/memoryfx/MemoryServer.java:47-51 | one line to everyone is appended to the output; the turn and the flag stay |
| Server.MemoryServer.GetBoardString | src/main/java/org/example/memoryfx/MemoryServer.java:62-78 | the nested `StringBuilder` loops produce exactly `BoardString` of the current board |
| Server.MemoryServer.RowString | src/main/java/org/example/memoryfx/MemoryServer.java:67-74 | the inner loop produces the text of row i |
| Server.MemoryServer.BroadcastTablero | src/main/java/org/example/memoryfx/MemoryServer.java:53-58 | everyone receives the board text with its newlines replaced by `#` |
| Server.MemoryServer.Start | src/main/java/org/example/memoryfx/MemoryServer.java:37-39 | once both players are connected, the start announcement and then the board go to everyone |
| Server.ClientHandler.constructor | src/main/java/org/example/memoryfx/MemoryServer.java:88-96 | a handler starts with no pick and its loop running |
| Server.ClientHandler.SendMessage | src/main/java/org/example/memoryfx/MemoryServer.java:102-104 | one line to this handler's player is appended to the output |
| Server.ClientHandler.Greet | src/main/java/org/example/memoryfx/MemoryServer.java:108 | the player is greeted with its one-based number |
| Server.ClientHandler.HandleLine | src/main/java/org/example/memoryfx/MemoryServer.java:112-171 | one iteration of the read loop, from reading a line to the next loop test, leaves the board, turn, flag, pick, loop state and output exactly as `Turns.Step` says |
| Server.ClientHandler.Body | src/main/java/org/example/memoryfx/MemoryServer.java:114-171 | the loop body for one line read leaves the board, turn, flag, pick and output exactly as `Turns.Body` says; only a failed `parseInt` ends the loop |
| Server.ClientHandler.Play | src/main/java/org/example/memoryfx/MemoryServer.java:127-171 | a parsed move of the player whose turn it is has exactly the effect `Turns.Move` describes |
| Server.ClientHandler.FirstCard | src/main/java/org/example/memoryfx/MemoryServer.java:127-137 | a refused first card changes nothing and is answered; an accepted one is turned, remembered, broadcast, and the player is asked for the second |
| Server.ClientHandler.SecondCard | src/main/java/org/example/memoryfx/MemoryServer.java:138-166 | a refused second card changes nothing and is answered; an accepted one has the effect `Turns.Accepted` describes |
| Server.ClientHandler.Compare | src/main/java/org/example/memoryfx/MemoryServer.java:144-161 | after the second card turns: the board goes out; then a pair is announced, or both cards are hidden, the board goes out again and the turn passes, as `Turns.Compared` says |
| Server.ClientHandler.ClearPick | src/main/java/org/example/memoryfx/MemoryServer.java:163-165 | the pick is reset to phase 0 at (-1, -1) |
| Server.ClientHandler.TurnBack | src/main/java/org/example/memoryfx/MemoryServer.java:156-160 | both cards face down, the new board to everyone, the turn becomes `(turnoActual + 1) % 2`, and that player is announced |
| Server.ClientHandler.CheckGameOver | src/main/java/org/example/memoryfx/MemoryServer.java:168-171 | a complete board is announced as over and sets `juegoTerminado`; otherwise nothing happens |
| Turns.Step | src/main/java/org/example/memoryfx/MemoryServer.java:112-125 | no iteration moves a card or changes the board's shape, and a handler whose loop goes on has seen the game not over at its loop test |
| Turns.LoopTest | src/main/java/org/example/memoryfx/MemoryServer.java:112 | the loop goes on exactly when it was not ended in the body and `juegoTerminado` is false; nothing else changes |
| Turns.Body | src/main/java/org/example/memoryfx/MemoryServer.java:114-125 | the body of the loop for one line changes face-up flags only |
| Turns.Move | src/main/java/org/example/memoryfx/MemoryServer.java:127-171 | a move changes face-up flags only |
| Turns.Accepted | src/main/java/org/example/memoryfx/MemoryServer.java:127-166 | an accepted card changes face-up flags only |
| Turns.Compared | src/main/java/org/example/memoryfx/MemoryServer.java:144-165 | after a second card the pick is always cleared, the loop goes on, and only flags change |
| Turns.Welcome | src/main/java/org/example/memoryfx/MemoryServer.java:108 | the greeting `Bienvenido, eres el Jugador ` followed by the one-based player number |
| Turns.PairFound | src/main/java/org/example/memoryfx/MemoryServer.java:148 | the notice `¡Jugador <n> encontró una pareja!` with the one-based player number |
| Turns.TurnOf | src/main/java/org/example/memoryfx/MemoryServer.java:160 | the notice `Turno del Jugador <n>` with the one-based number of the new turn holder |
| Turns.Finish | src/main/java/org/example/memoryfx/MemoryServer.java:168-171 | a complete board sets `juegoTerminado` and announces the end; otherwise nothing happens |
| Turns.Inv | src/main/java/org/example/memoryfx/MemoryServer.java:112-171 | the turn is 0 or 1; only the player whose turn it is holds a first card, which is face up; a complete non-empty board has ended the game; a game that is over has a complete board and the player who ended it has left the loop |
| Turns.Initial | src/main/java/org/example/memoryfx/MemoryServer.java:37-39 | both players greeted, the start announced and the first board sent, turn 0, no picks, both loops running |
| Turns.Deliver | src/main/java/org/example/memoryfx/MemoryServer.java:112 | a line for a handler that has left its loop changes nothing; otherwise one iteration; the cards stay and both handlers keep their entries |
| Turns.Run | src/main/java/org/example/memoryfx/MemoryServer.java:112 | the lines of a schedule delivered one after another |
| Turns.InitialInv | src/main/java/org/example/memoryfx/MemoryServer.java:15-16 | a fresh board of face-down cards, turn 0 and no picks satisfy the invariant |
| Turns.StepCases | src/main/java/org/example/memoryfx/MemoryServer.java:112-125 | an iteration either leaves the shared state and the pick alone, or is a move by the player whose turn it is, followed by the loop test |
| Turns.MoveEffect | src/main/java/org/example/memoryfx/MemoryServer.java:127-171 | a refused card changes nothing. A first card turns and is remembered. A pair keeps the turn and clears the pick. A mismatch hides both and passes the turn. The flag is set exactly when the board is complete |
| Turns.FinishEffect | src/main/java/org/example/memoryfx/MemoryServer.java:168-171 | the end check changes only the flag, which becomes true exactly when the board is complete |
| Turns.FinishAppends | src/main/java/org/example/memoryfx/MemoryServer.java:168-171 | the end check only appends to what was already sent |
| Turns.NextTurn | src/main/java/org/example/memoryfx/MemoryServer.java:159 | `(turnoActual + 1) % 2` hands turn 0 to 1 and 1 to 0, so the turn stays in {0, 1} |
| Turns.StepPreservesInv | src/main/java/org/example/memoryfx/MemoryServer.java:112-171 | every delivered line keeps the invariant |
| Turns.StepKeepsParts | src/main/java/org/example/memoryfx/MemoryServer.java:112-171 | one player's iteration keeps each part of the invariant |
| Turns.InvOfParts | src/main/java/org/example/memoryfx/MemoryServer.java:112-171 | the invariant, assembled from the parts one iteration keeps |
| Turns.RunPreservesInv | src/main/java/org/example/memoryfx/MemoryServer.java:112-171 | the invariant holds after any schedule of lines |
| Turns.GameOverFreezes | src/main/java/org/example/memoryfx/MemoryServer.java:112-120 | once `juegoTerminado` is set, the board and the turn never change, and at most one more line goes out: "No es tu turno." to the other player, whose handler was still waiting in `readLine` |
| Turns.LateLine | src/main/java/org/example/memoryfx/MemoryServer.java:112-120 | a line read after the game is over ends that handler's loop, changes no shared state and no pick, and is answered with "No es tu turno." or not at all |
| Turns.SettledCellsStay | src/main/java/org/example/memoryfx/MemoryServer.java:156 | a face-up card that is not a pending first card stays face up |
| Turns.IgnoredLines | src/main/java/org/example/memoryfx/MemoryServer.java:114-123 | a line not starting with `MOVE`, or a move of the player whose turn it is with fewer than three parts, changes nothing and sends nothing; the loop goes on unless the game is over |
| Turns.OutOfTurn | src/main/java/org/example/memoryfx/MemoryServer.java:116-120 | a move out of turn is answered with "No es tu turno." and changes nothing, also when the game ended while the handler waited for the line |
| Turns.FirstPick | src/main/java/org/example/memoryfx/MemoryServer.java:127-137 | a refused first card changes nothing and keeps phase 0. An accepted one stores the card, sets phase 1, broadcasts the board and asks for the second card |
| Turns.SecondPickMatch | src/main/java/org/example/memoryfx/MemoryServer.java:146-148 | on a pair both cards stay face up, the turn stays, the pick is reset, and the pair is announced |
| Turns.SecondPickMismatch | src/main/java/org/example/memoryfx/MemoryServer.java:149-165 | on a mismatch both cards are face down again, the turn passes to the other player and is announced, and the pick is reset |
| Turns.CompletionEndsGame | src/main/java/org/example/memoryfx/MemoryServer.java:168-171 | after an accepted card the game is over exactly when the board is complete, and the last line sent then announces it |
| Turns.SplitClientLine | src/main/java/org/example/memoryfx/MemoryServer.java:122 | `MOVE f c` splits into exactly its three parts when f and c have no space and c is not empty |
| Turns.MoveLine | src/main/java/org/example/memoryfx/MemoryClient.java:44 | from the player whose turn it is, the client's `"MOVE " + fila + " " + col` is parsed by the server into exactly that move, followed by the loop test |
| Turns.ClientLine | src/main/java/org/example/memoryfx/MemoryClient.java:44 | the line the client sends for a click: `MOVE`, a space, the row, a space, the column |

## Left out

- Sockets, the accept loop, the reader/writer streams and the threads are not modelled. A
  line arrives as a parameter, and output is appended to a log.
- The two handler threads race on `turnoActual` and `juegoTerminado` without locking.
  The model delivers lines one at a time, in any order.
- The model starts after start()'s two broadcasts, with both players connected
  (`Turns.Initial`). In the source each handler's thread starts as soon as its player
  connects (MemoryServer.java:31-33) and reads at once. Lines the first player sends
  before the second one connects are not covered: their broadcasts reach only one
  client, and the later announcement "Turno del Jugador 1" can name the wrong player
  if a mismatch has already passed the turn. The model also fixes the order of the
  second player's greeting, sent from its handler thread, before start()'s
  announcement; in the source either can reach that player first.
- Snapshot.DecodeBoardString: stated only for boards whose tokens hold no space and no
  newline. Past 65513 pairs the `char` counter wraps to a newline token (pair 65513) and
  a space token (pair 65535), and those break the text format as the `#` token does.
- Game.CardsLack: stated for pair indices below 65536. Pair 65536's token is `!` again,
  as Java's `caracter++` wraps.
- Each handler's loop test is modelled at the end of its own iteration. A handler that
  reaches its test only after the other one has ended the game leaves without reading.
  In the model that is a schedule that delivers no further line to it.
- `Thread.sleep(1000)` before a mismatch is hidden is not modelled, because it only
  affects timing.
- Console output (`System.out.println`, `printStackTrace`) is left out.
- A broadcast is one log entry addressed to everyone, not one `println` per client.
- `Collections.shuffle` is not modelled as randomness. The constructor takes the shuffled
  deck as a parameter and requires it to be a permutation of the generated cards.
- Game.GameLogic.Create: requires `filas * columnas` to lie in the `int` range. Java's
  wrap-around on a larger product is not modelled.
- Game.ShuffledTokens: stated for at most 65536 pairs. Past that the `char` counter
  wraps, so tokens repeat in the model as in Java, but no property of that case is stated.
- Game.CardsTwice: stated for at most 65536 pairs, for the same reason.
- Game.GameLogic.ComprobarSiCoinciden: requires both cells on the board. The source
  throws `ArrayIndexOutOfBoundsException` instead; the handler only ever passes cells
  `voltearCarta` accepted.
- Game.GameLogic.EsconderCartas: requires both cells on the board. The source would
  throw, and the handler only passes accepted cells.
- JavaText.ParseInt: accepts only ASCII digits. `Integer.parseInt` also accepts other
  Unicode decimal digits.
- A `NumberFormatException` from `parseInt` is not caught in `run()`. The model ends
  that handler's loop (`running` becomes false) and does not model the stack trace.
- Turns.Inv: "a complete board has ended the game" is stated only for boards with at
  least one cell. A 0-cell board is complete from the start, but no move can be
  accepted on it, so the end check is never reached.
- Scoring and announcing a winner do not exist in this code.
- The JavaFX user interface and the client are not modelled, apart from two details: the
  `MOVE` line the client sends (MemoryClient.java:44) and its `#` replacement
  (MemoryClient.java:58).
- Snapshot.DecodeBoardString: `Decode` is a reference reader that shows the text is
  unambiguous. It is not the client's own parsing of the board, which belongs to the UI.
- `getTablero` and `getRevelado` are the arrays themselves. The model reads them through
  the `GameLogic` fields.
