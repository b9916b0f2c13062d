# Tic-tac-toe over TCP, modelled in Dafny

This project models the core of a two-player tic-tac-toe game played over TCP:

- the pieces;
- the 3x3 board: indexing, the end-of-game check, parsing from text and the debug rendering;
- the server's `Game` session object: seat assignment, moves, broadcast and send;
- the length-prefixed string framing shared by client and server (`read_str` / `write_str`);
- the per-connection handler loop of the server;
- the client's address validation.

Modules, one concept each:

| module | file | models |
|---|---|---|
| `Util` | util.dfy | `Option` and `Result` |
| `Pieces` | piece.dfy | `Piece`, its order, `next`/`other`, `FromStr`, `Display` |
| `GameStates` | state.dfy | `GameState` |
| `Boards` | board.dfy | `Board`, indexing, `is_full` and `check_end` |
| `BoardText` | board.dfy | `Board::from_str` (whitespace tokens) and `Debug for Board` |
| `BoardExamples` | board_examples.dfy | the board's unit tests, stated on the model |
| `Messages` | messages.dfy | `Request` and `Response` |
| `Sessions` | game.dfy | the server's `Game` as a class with fields `board`, `players` and `turn` |
| `Framing` | framing.dfy | `read_str`/`write_str` over a reader and a writer class |
| `Server` | server.dfy | `register_user` and `handle_client` |
| `Client` | client.dfy | `Client::validate_address` and its unit tests |

Each board test in `BoardExamples` is stated on its token list. Its lemma also proves that the test's string is exactly those tokens joined by the test's spacing.

How the outside world is represented:

- A connection (`TcpStream`) is a `ConnId`, a handle that is only compared.
- A write to a connection is decided by an oracle parameter `writeOk`. It says whether the write succeeds.
- A read in the handler is an `Incoming` value: a decoded request, a read error or a JSON error. The frames on the wire are modelled separately in `Framing`.
- The shared `Arc<Mutex<Game>>` is one `Game` object. Handlers of different connections do not interleave in the model, so each locked section runs atomically. A section is one step of the handler on the object:
  - Admission takes two locks. `register_user` locks around `Game.AssignPiece` (server/src/server.rs:25-28), and `handle_client` locks again to read the board for the `Connect` message (server/src/server.rs:39). `Server.Register` makes both steps in a row.
  - The lock that only prints the board at the top of the loop (server/src/server.rs:43) is logging and is not modelled.
  - A `Play` request locks once (server/src/server.rs:50-56). The section covers `Game.Play` and then `Game.Broadcast` or `Game.Send`, all inside `Server.Step`.
  - A `Disconnect` locks around `players.remove` (server/src/server.rs:60-61). `Server.Step` removes the entry from the `players` field directly.

Behaviour of the code that the model keeps as written:

- After a win or a stalemate, the board is cleared and the turn goes back to `Piece::default()`, which is X. X therefore opens every round (`Sessions.RoundStartsWithX`). X also makes the ninth move, so only X's move can produce a stalemate (`Sessions.StalemateOnlyAfterX`).
- `check_end(piece)` reports `Win(piece)` for whatever piece fills the line. `Game::play` passes the mover, and the mover is the only player who can have completed a line (`Sessions.PlayStepWinnerOwnsLine`).
- `assign_piece` builds its result with `bool::then_some`, which evaluates its argument first. A third connection is therefore answered `None`, yet it has already replaced O's stream in `players` (`Sessions.AssignFullSession`, `Server.HandleClient`).
- When both players ask for the same empty cell, a player who moves out of turn is always refused. Served second, that player gets in only if the first move ended the round and they are X (`Sessions.RaceForOneCell`).
- `(i, j)` maps to cell `i * 3 + j` with no check on `j`, so `(0, 5)` is cell `(1, 2)`.
- `play` checks the turn before it indexes the board. A request out of turn is answered `Invalid` whatever its cell. A request in turn for a cell past 8 makes Rust panic, and the model ends that handler with `Failed(IndexOutOfBounds)`.
- `from_str` on a board never fails. Tokens that are not a piece become empty cells, and tokens past the ninth are ignored.

## Model

| member | source | states |
|---|---|---|
| Pieces.Less | core/src/game/piece.rs:4-8 | the derived `<`: pieces compare by their position in the declaration, X then O |
| Pieces.LessIsStrictTotalOrder | core/src/game/piece.rs:4-8 | the derived `Ord` is a strict total order on pieces with X before O |
| Pieces.DefaultIsLeast | core/src/game/piece.rs:26-30 | `Piece::default()` is X, the least piece in the derived order |
| Pieces.Other | core/src/game/piece.rs:18-23 | the other piece is never the piece itself |
| Pieces.OtherIsInvolution | core/src/game/piece.rs:18-23 | taking the other piece twice gives the piece back |
| Pieces.Next | core/src/game/piece.rs:11-16 | the value `next` leaves behind is the other piece, so it always changes |
| Pieces.Upper | core/src/game/piece.rs:35 | upper-casing keeps the length and maps each character on its own |
| Pieces.ParsePiece | core/src/game/piece.rs:32-41 | every refusal carries the message "Invalid Piece representation" |
| Pieces.ParsePieceAccepts | core/src/game/piece.rs:32-41 | X is parsed from exactly "x" and "X"; O from exactly "o" and "O"; every other string is an error |
| Pieces.Display | core/src/game/piece.rs:43-52 | a piece displays as the single character of its letter |
| Pieces.ParseDisplay | core/src/game/piece.rs:32-52 | parsing what `Display` writes gives the piece back, and the texts are "X" and "O" |
| Boards.New | core/src/game/board.rs:7-13 | a new board has nine empty cells |
| Boards.Offset | core/src/game/board.rs:56-61 | `(i, j)` addresses cell `i * 3 + j` of the nine, with no check on either coordinate |
| Boards.Get | core/src/game/board.rs:56-61 | `board[(i, j)]` reads cell `Offset(i, j)`, which must be below 9 (Rust panics otherwise) |
| Boards.Put | core/src/game/board.rs:63-67 | assigning through `IndexMut` sets cell `i * 3 + j` and leaves every other cell as it was |
| Boards.OffsetOverflowsIntoNextRow | core/src/game/board.rs:56-61 | a column of 3 or more addresses a cell of the next row |
| Boards.CountSome | core/src/game/board.rs:16 | `iter().flatten().count()` counts the occupied cells, never more than there are cells |
| Boards.CountSomeAll | core/src/game/board.rs:15-17 | the occupied-cell count reaches the length exactly when every cell is occupied |
| Boards.IsFull | core/src/game/board.rs:15-17 | `is_full` holds when the occupied-cell count is nine |
| Boards.IsFullIff | core/src/game/board.rs:15-17 | `is_full` holds exactly when all nine cells hold a piece |
| Boards.CheckEnd | core/src/game/board.rs:23-53 | a reported win is always credited to the argument piece |
| Boards.RowOrColumnFromLines | core/src/game/board.rs:24-38 | the `for` loop finds a complete row or column exactly when one of the six straight lines is complete |
| Boards.CheckEndClassifies | core/src/game/board.rs:23-53 | `Win` exactly when one of the eight lines is complete, even on a full board; `Stalemate` exactly when no line is complete and the board is full; `Playing` otherwise |
| BoardText.WordLength | core/src/game/board.rs:74 | the leading word is the longest whitespace-free prefix |
| BoardText.Tokens | core/src/game/board.rs:74 | `split_whitespace`: skip whitespace, take the leading word, repeat on the rest |
| BoardText.TokensAreWords | core/src/game/board.rs:74 | every token of `split_whitespace` is non-empty and holds no whitespace |
| BoardText.TokensSkipGap | core/src/game/board.rs:74 | leading whitespace does not change the tokens |
| BoardText.UnwordsSplit | core/src/game/board.rs:74 | words joined by gaps split at any word into the two joined halves and the gap between them |
| BoardText.WordLengthBeforeGap | core/src/game/board.rs:74 | whitespace after a text does not lengthen its leading word |
| BoardText.TokensBeforeGap | core/src/game/board.rs:74 | trailing whitespace does not change the tokens |
| BoardText.TokensOfUnwords | core/src/game/board.rs:74 | splitting words joined by non-empty whitespace gives the same words back |
| BoardText.ParseCell | core/src/game/board.rs:76 | a token makes an occupied cell exactly when it parses as a piece |
| BoardText.ParsedBoard | core/src/game/board.rs:69-82 | `from_str`'s array: cell `k` is the parse of token `k` for the first nine tokens, and empty where the tokens run out |
| BoardText.ParsedBoardOfWords | core/src/game/board.rs:69-82 | cell `k` of a parsed board is the parse of token `k`, or empty when there are fewer than `k + 1` tokens |
| BoardText.FromStr | core/src/game/board.rs:69-82 | `from_str` always returns `Ok`, with cell `k` taken from the `k`-th token |
| BoardText.Render | core/src/game/board.rs:84-106 | the `Debug` text is five lines of twelve characters: the rows " a \| b \| c " with an empty cell shown as a space, separated by " - + - + - " |
| BoardExamples.EightNumbersGiveEmptyBoard | core/src/game/board.rs:117-118 | "1 2 3 4 5 6 7 8" parses to the empty board |
| BoardExamples.TenNumbersGiveEmptyBoard | core/src/game/board.rs:120-121 | "1 2 3 4 5 6 7 8 9 10" parses to the empty board |
| BoardExamples.TenPiecesFillBoard | core/src/game/board.rs:123-124 | "o o o o o o o o o o" fills every cell with O |
| BoardExamples.TopAndBottomRowsWin | core/src/game/board.rs:129-130 | "x x x  - - -  x x x" is a win for the argument piece X |
| BoardExamples.MiddleRowWins | core/src/game/board.rs:132-133 | "- - -  x x x  - - -" is a win for X |
| BoardExamples.BottomRowWins | core/src/game/board.rs:135-136 | "- - -  - - -  x x x" is a win for X |
| BoardExamples.DiagonalWins | core/src/game/board.rs:138-139 | "x - -  - x -  - - x" is a win for X |
| BoardExamples.AntiDiagonalWins | core/src/game/board.rs:141-142 | "- - x  - x -  x - -" is a win for X |
| BoardExamples.EmptyBoardPlays | core/src/game/board.rs:144-145 | "- - -  - - -  - - -" is still `Playing` |
| BoardExamples.FullBoardStalemate | core/src/game/board.rs:147-148 | "o x o  o x o  x o x" is a `Stalemate` |
| Sessions.CountOfSplits | core/src/game/board.rs:15-17 | the X cells and the O cells together are the occupied cells |
| Sessions.CountOfPut | server/src/game.rs:52 | placing a piece on an empty cell adds one to that piece's count and nothing to the other's |
| Sessions.PlayStep | server/src/game.rs:43-64 | a move out of turn is `Invalid` whatever its cell, as the turn is checked before the board is indexed; a move onto an occupied cell is `Invalid`; both change nothing; a valid move reports the board with the piece placed and that board's `check_end` for the mover |
| Sessions.PlayStepNextRound | server/src/game.rs:52-61 | after a valid move the turn passes to the other piece while the game goes on; after a win or stalemate the board is cleared and X moves next |
| Sessions.NewRoundInvariant | server/src/game.rs:79-87 | the empty board with X to move has no line, is not full and has equal counts |
| Sessions.PlayStepInvariant | server/src/game.rs:43-64 | `play` keeps the session invariant: no complete line, not full, and X has one cell more than O exactly when it is O's turn |
| Sessions.NewLinesBelongToMover | server/src/game.rs:52-55 | placing a piece on a board without a line completes only lines of that piece |
| Sessions.PlayStepWinnerOwnsLine | server/src/game.rs:52-55 | a reported win names the mover, who owns a complete line while the other piece owns none |
| Sessions.RoundStartsWithX | server/src/game.rs:58-61 | while the board is empty it is X's turn |
| Sessions.StalemateOnlyAfterX | server/src/game.rs:52-61 | only a move by X can end the round in a stalemate |
| Sessions.RaceForOneCell | server/src/game.rs:43-64 | of two requests for the same empty cell, the one out of turn is refused if served first; served second, it is refused unless the round just ended and it is X's |
| Sessions.AtMostTwoPlayers | server/src/game.rs:11 | a map keyed by pieces has at most two entries, and two exactly when both X and O are keys |
| Sessions.ChoosePiece | server/src/game.rs:32-36 | the key chosen is X when X is not registered, and a free seat whenever fewer than two players are registered |
| Sessions.Assign | server/src/game.rs:30-41 | `assign_piece` on the map: the answer is the chosen piece exactly when fewer than two players are registered, and the insertion of the new connection under that piece happens in every case |
| Sessions.AssignFreeSeat | server/src/game.rs:30-41 | with a seat free, the new connection gets a piece nobody holds (X if X is free) and the map grows by one entry |
| Sessions.AssignFullSession | server/src/game.rs:30-41 | with both seats taken the answer is `None`, yet O's connection is replaced by the new one and X's stays |
| Sessions.Recipients | server/src/game.rs:23 | the connections `broadcast` writes to, one per registered key in iteration order |
| Sessions.Attempts | server/src/game.rs:23-25 | the writes the `for` loop with `?` attempts: each recipient in turn, ending after the first failed write |
| Sessions.RecipientKeys | server/src/game.rs:23 | `BTreeMap` iteration visits exactly the registered pieces, in ascending order |
| Sessions.AttemptsStopAtFailure | server/src/game.rs:23-25 | the attempted writes are a prefix of the recipients: all of them when every write succeeds, otherwise ending at the first failed write |
| Sessions.AttemptsAtFailure | server/src/game.rs:23-25 | when the first `i` writes succeed and write `i` fails, exactly the first `i + 1` recipients are written to |
| Sessions.Game.constructor | server/src/game.rs:16-18 | a new game has an empty board, no players, X to move, and satisfies the invariant |
| Sessions.Game.AssignPiece | server/src/game.rs:30-41 | the answer and the new player map are those of `assign_piece`, including the eager insertion; board and turn are kept and so is the invariant |
| Sessions.Game.Play | server/src/game.rs:43-64 | the response and the new board and turn are those of `PlayStep`, so a move out of turn needs no cell in bounds; the invariant is kept and `players` is outside the frame |
| Sessions.Game.Broadcast | server/src/game.rs:20-28 | writes go to the registered players in key order and stop at the first failure; the result is `Ok` exactly when every write succeeds |
| Sessions.Game.Send | server/src/game.rs:66-76 | an answer to a registered piece is one write to its connection; an unregistered piece is an error with no write |
| Framing.BeBytes | core/src/lib.rs:28 | `to_be_bytes` at a given width: exactly that many bytes, most significant first |
| Framing.FromBe | core/src/lib.rs:20 | `from_be_bytes`: the bytes read as a base-256 number, most significant first, always below 256 to the power of the width |
| Framing.FromBeBeBytes | core/src/lib.rs:20 | `from_be_bytes` inverts `to_be_bytes` |
| Framing.BeBytesFromBe | core/src/lib.rs:28 | `to_be_bytes` inverts `from_be_bytes` |
| Framing.ValidUtf8 | core/src/lib.rs:24 | what `String::from_utf8` accepts: a concatenation of the well-formed byte sequences of Table 3-7 of the Unicode Standard |
| Framing.AsciiIsUtf8 | core/src/lib.rs:24 | ASCII bytes pass the UTF-8 check |
| Framing.Decode | core/src/lib.rs:15-25 | `read_str` on a stream holding the given bytes: the eight-byte big-endian length, then that many bytes checked as UTF-8; a short header or payload is `UnexpectedEof`, a bad payload is "Failed to parse string"; and the bytes left unread |
| Framing.Encode | core/src/lib.rs:27-30 | a frame is an eight-byte header followed by the string's bytes unchanged |
| Framing.AsciiFrameRoundTrip | core/src/lib.rs:15-30 | an ASCII string, such as a JSON text of a request or response, survives a frame round trip |
| Framing.DecodeEncode | core/src/lib.rs:15-30 | `read_str` on what `write_str(s)` wrote returns `s` and leaves the following bytes unread |
| Framing.EncodeDecode | core/src/lib.rs:15-25 | a successful `read_str` consumed exactly one frame of a valid UTF-8 string |
| Framing.DecodeFailures | core/src/lib.rs:15-25 | `read_str` fails with `UnexpectedEof` when the header or the payload is short, and with "Failed to parse string" exactly when a complete payload is not UTF-8 |
| Framing.Reader.ReadExact | core/src/lib.rs:17 | `read_exact` yields exactly the next `n` bytes, or `UnexpectedEof` when fewer remain |
| Framing.Reader.ReadStr | core/src/lib.rs:15-25 | the result and the unread bytes are those of `Decode` on the bytes pending before the call |
| Framing.Writer.WriteAll | core/src/lib.rs:28-29 | the bytes are appended to what was written |
| Framing.Writer.WriteStr | core/src/lib.rs:27-30 | exactly one frame of `s` is appended to the stream |
| Framing.FrameRoundTrip | core/src/lib.rs:15-30 | a string written through a writer is read back whole from a reader of the written bytes |
| Server.Register | server/src/server.rs:25-40 | a refused connection is sent nothing and ends the handler with `Ok`; an admitted one is sent one `Connect` with its piece and the board, and carries on only if that write succeeds |
| Server.Step | server/src/server.rs:42-65 | read and JSON errors end the handler and leave the game alone; `Disconnect` removes the player's entry; a `Play` in turn for a cell past 8 panics and leaves the game alone, while one out of turn is answered `Invalid` whatever its cell; otherwise the `play` result is broadcast when valid or sent to the mover when not, and the loop goes on exactly when every attempted write succeeds and, for an answer to the mover, the mover is registered |
| Server.HandleClient | server/src/server.rs:32-69 | the handler returns at once exactly when two players were registered, and O's entry is still overwritten; otherwise the first message is the `Connect`; a `Disconnect` removes the entry; an error exit keeps it |
| Client.Split | client/src/client.rs:13 | `split` always yields at least one field |
| Client.SplitJoin | client/src/client.rs:13 | the fields hold no separator and joining them with it gives the input back |
| Client.SplitOfJoin | client/src/client.rs:13 | splitting separator-free fields joined by the separator gives the fields back |
| Client.ParseUnsigned | client/src/client.rs:23 | a parsed value never exceeds the type's maximum |
| Client.ParseDecimal | client/src/client.rs:23 | parsing the decimal text of `n`, with or without a leading '+', gives `n` exactly when `n` fits the type |
| Client.ParseRejectsLeading | client/src/client.rs:23 | a text starting with neither a digit nor '+' does not parse |
| Client.CountOctets | client/src/client.rs:21-25 | the count of fields that parse as `u8` never exceeds the number of fields |
| Client.ValidateAddress | client/src/client.rs:12-32 | `validate_address`: split on ':' into exactly two parts; the port must be non-empty and parse as `u16`, and exactly four '.'-fields of the host must parse as `u8` |
| Client.ValidateAddressIff | client/src/client.rs:12-32 | `host:port` with one ':' is accepted exactly when the port is non-empty and parses as `u16`, and exactly four '.'-fields of the host parse as `u8` |
| Client.ValidAddressShape | client/src/client.rs:13-15 | an accepted address contains exactly one ':' |
| Client.DottedHostAccepted | client/src/client.rs:12-32 | dotted decimal bytes with a port are accepted exactly when there are four of them and the port is at most 65535 |
| Client.ExtraHostFieldIgnored | client/src/client.rs:21-29 | a fifth host field that is not a byte does not stop four byte fields from passing |
| Client.LoopbackAccepted | client/src/client.rs:95 | "127.0.0.1:8080" is accepted |
| Client.BroadcastAddressAccepted | client/src/client.rs:96 | "255.255.255.255:1111" is accepted |
| Client.LargestPortAccepted | client/src/client.rs:97 | "0.0.0.0:65535" is accepted |
| Client.OctetOutOfRangeRefused | client/src/client.rs:99 | "255.255.255.256:2222" is refused |
| Client.PortOutOfRangeRefused | client/src/client.rs:100 | "0.0.0.0:65536" is refused |

## Left out

- Pieces.Upper: upper-cases ASCII letters only. `str::to_uppercase` also maps non-ASCII letters (for example 'ß' to "SS"). No non-ASCII text upper-cases to "X" or "O", so `from_str` is unaffected.
- Boards.Offset: `i * 3 + j` is computed on unbounded integers; `usize` overflow for huge indices is not modelled.
- Server.Step: `Request::Play` carries two `usize` values; the model accepts any naturals. It treats a request in turn for a cell past 8 as the out-of-bounds panic.
- Framing.Reader.ReadStr: `vec![0; size]` (core/src/lib.rs:21) is not modelled. The model reports `UnexpectedEof` whenever fewer bytes than announced follow. In Rust, two cases differ from that:
  - A size of 2^63 or more fails the allocation's layout check and panics with "capacity overflow". The panic unwinds only that handler's thread. `read_str` runs outside any lock (server/src/server.rs:45), so the mutex is not poisoned and the player's entry stays, as after the model's read error.
  - A smaller size that the allocator refuses aborts the whole server process.
- Framing.Reader.ReadExact: Rust leaves unspecified how much of a short stream `read_exact` consumes before `UnexpectedEof`; the model consumes all of it.
- Framing.Writer.WriteAll: the writer always accepts. Write failures on sockets are modelled only through the `writeOk` oracle in `Sessions`/`Server`.
- Framing: strings are modelled as their UTF-8 bytes `seq<byte>`; a `&str` is any valid UTF-8 byte sequence below 2^64 bytes.
- Server.HandleClient: handlers of different connections do not interleave in the model. A mutex poisoned by a panicking handler is not modelled: `register_user` would then return `None`, and the `unwrap` calls would panic.
- Server.HandleClient: `peer_addr()` failing and the `println!` logging are not modelled.
- Server.HandleClient: `stream.try_clone()?` (server/src/server.rs:33) failing before registration is not modelled. The handler would then return that error without touching the game.
- JSON encoding and decoding with `serde_json` is not modelled. A request arrives already decoded, a response is sent as a value, and a JSON error is the `DecodeFailed` input. `serde_json::to_string` failing is not modelled either; it cannot fail for these types.
- `Board::data` is a plain accessor to the cells and is not modelled separately.
- `Display for Response` (core/src/response.rs) is not part of this model.
- `Server::new`, `Server::run`, the thread pool (server/src/threadpool) and server/src/main.rs are not part of this model: they bind the listener and hand connections to threads.
- The client's `connect`, `new`, `send_request`, `recv_response`, `Clone` and `Drop`, client/src/print.rs and client/src/main.rs are not part of this model: they are terminal I/O over the same framing.
