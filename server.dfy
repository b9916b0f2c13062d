/** The per-connection handler of the server (server/src/server.rs), with the
    socket reduced to what it delivers and the mutex to atomic calls on `Game`. */
module Server {
  import opened Util
  import opened Pieces
  import opened GameStates
  import opened Boards
  import opened Messages
  import opened Sessions

  /** What reading one frame and decoding its JSON produced. */
  datatype Incoming = Received(req: Request) | ReadFailed | DecodeFailed

  /** One response written to one connection. */
  datatype Delivery = Delivery(to: ConnId, res: Response)

  /** Why a handler stopped with an error (`?`, or a panic on a bad index). */
  datatype Failure = ReadError | DecodeError | WriteError | IndexOutOfBounds

  /** How `handle_client` ends: `Refused` and `Disconnected` return `Ok(())`. */
  datatype Exit = Refused | Disconnected | Failed(cause: Failure)

  datatype Outcome = Continue | Stop(exit: Exit)

  function Deliveries(to: seq<ConnId>, res: Response): (ds: seq<Delivery>)
    ensures |ds| == |to|
    ensures forall k :: 0 <= k < |to| ==> ds[k] == Delivery(to[k], res)
  {
    seq(|to|, k requires 0 <= k < |to| => Delivery(to[k], res))
  }

  /** The connections `Game::send(piece, ..)` writes to. */
  function SendTargets(players: map<Piece, ConnId>, piece: Piece): seq<ConnId> {
    if piece in players then [players[piece]] else []
  }

  /** `register_user` followed by the `Connect` message: a refused connection
      gets nothing; an accepted one alone is sent its piece and the board. */
  method Register(game: Game, conn: ConnId, writeOk: ConnId -> bool)
    returns (piece: Option<Piece>, sent: seq<Delivery>, next: Outcome)
    requires game.Valid()
    modifies game
    ensures game.Valid()
    ensures (piece, game.players) == Assign(old(game.players), conn)
    ensures game.board == old(game.board) && game.turn == old(game.turn)
    ensures piece.None? ==> sent == [] && next == Stop(Refused)
    ensures piece.Some? ==>
      && sent == [Delivery(conn, Connect(game.board, piece.value))]
      && next == (if writeOk(conn) then Continue else Stop(Failed(WriteError)))
  {
    piece := game.AssignPiece(conn);
    if piece.None? {
      return None, [], Stop(Refused);
    }
    var board := game.board;
    sent := [Delivery(conn, Connect(board, piece.value))];
    next := if writeOk(conn) then Continue else Stop(Failed(WriteError));
  }

  /** One turn of the `loop` in `handle_client` for the player holding `piece`.
      A request in turn for a cell past 8 panics inside `play`; one out of
      turn is answered `Invalid` before the board is indexed. */
  method Step(game: Game, piece: Piece, input: Incoming, writeOk: ConnId -> bool)
    returns (sent: seq<Delivery>, next: Outcome)
    requires game.Valid()
    modifies game
    ensures game.Valid()
    ensures input.ReadFailed? ==>
      sent == [] && next == Stop(Failed(ReadError)) && unchanged(game)
    ensures input.DecodeFailed? ==>
      sent == [] && next == Stop(Failed(DecodeError)) && unchanged(game)
    ensures input == Received(Disconnect) ==>
      && sent == [] && next == Stop(Disconnected)
      && game.players == old(game.players) - {piece}
      && game.board == old(game.board) && game.turn == old(game.turn)
    ensures (input.Received? && input.req.Play? && piece == old(game.turn)
             && Offset(input.req.idx.0, input.req.idx.1) >= 9) ==>
      sent == [] && next == Stop(Failed(IndexOutOfBounds)) && unchanged(game)
    ensures (input.Received? && input.req.Play?
             && (piece != old(game.turn) || Offset(input.req.idx.0, input.req.idx.1) < 9)) ==>
      var (i, j) := input.req.idx;
      var (res, round) := PlayStep(old(Round(game.board, game.turn)), piece, i, j);
      var targets := if res.Valid? then Recipients(old(game.players)) else SendTargets(old(game.players), piece);
      && game.board == round.board && game.turn == round.turn
      && game.players == old(game.players)
      && sent == Deliveries(Attempts(targets, writeOk), res)
      && (next == Continue <==> (res.Valid? || piece in old(game.players)) && Delivered(targets, writeOk))
      && (next != Continue ==> next == Stop(Failed(WriteError)))
  {
    match input
    case ReadFailed =>
      return [], Stop(Failed(ReadError));
    case DecodeFailed =>
      return [], Stop(Failed(DecodeError));
    case Received(Disconnect) =>
      game.players := game.players - {piece};
      return [], Stop(Disconnected);
    case Received(Play((i, j))) =>
      if piece == game.turn && Offset(i, j) >= 9 {
        return [], Stop(Failed(IndexOutOfBounds));
      }
      var res := game.Play(piece, i, j);
      var attempted, ok;
      if res.Valid? {
        attempted, ok := game.Broadcast(writeOk);
      } else {
        attempted, ok := game.Send(piece, writeOk);
      }
      sent := Deliveries(attempted, res);
      next := if ok then Continue else Stop(Failed(WriteError));
  }

  /** `handle_client` for connection `conn`, run without interleaving: `inputs`
      are the results of its successive reads (reading past them hits the end
      of the stream) and `writeOk(n, c)` says whether a write to `c` during
      turn `n` succeeds (turn 0 is the `Connect` message). */
  method HandleClient(game: Game, conn: ConnId, inputs: seq<Incoming>, writeOk: (nat, ConnId) -> bool)
    returns (log: seq<Delivery>, exit: Exit)
    requires game.Valid()
    modifies game
    ensures game.Valid()
    ensures exit == Refused <==> |old(game.players)| >= 2
    ensures exit == Refused ==>
      && log == []
      && game.players == old(game.players)[O := conn]
      && game.board == old(game.board) && game.turn == old(game.turn)
    ensures exit != Refused ==>
      && log != []
      && log[0] == Delivery(conn, Connect(old(game.board), ChoosePiece(old(game.players))))
    ensures exit == Disconnected ==>
      game.players == old(game.players) - {ChoosePiece(old(game.players))}
    ensures exit.Failed? ==>
      game.players == old(game.players)[ChoosePiece(old(game.players)) := conn]
  {
    ghost var before := game.players;
    var seat, sent, next := Register(game, conn, (c: ConnId) => writeOk(0, c));
    log := sent;
    if next.Stop? {
      if seat.None? {
        AssignFullSession(before, conn);
      } else {
        AssignFreeSeat(before, conn);
      }
      return log, next.exit;
    }
    AssignFreeSeat(before, conn);
    var piece := seat.value;
    var n := 0;
    while true
      invariant 0 <= n <= |inputs|
      invariant game.Valid()
      invariant game.players == before[piece := conn]
      invariant log != [] && log[0] == Delivery(conn, Connect(old(game.board), piece))
      decreases |inputs| - n
    {
      var input := if n < |inputs| then inputs[n] else ReadFailed;
      sent, next := Step(game, piece, input, (c: ConnId) => writeOk(n + 1, c));
      log := log + sent;
      if next.Stop? {
        return log, next.exit;
      }
      n := n + 1;
    }
  }
}
