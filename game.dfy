/** The server's single game session (server/src/game.rs). */
module Sessions {
  import opened Util
  import opened Pieces
  import opened GameStates
  import opened Boards
  import opened Messages

  /** Stands for the `TcpStream` a player is registered with: a handle that
      is only ever compared. */
  type ConnId = int

  /** The part of `Game` that `play` reads and writes. */
  datatype Round = Round(board: Board, turn: Piece)

  /** Number of cells holding `p`. */
  function CountOf(cells: seq<Cell>, p: Piece): (n: nat)
    ensures n <= |cells|
  {
    if cells == [] then 0
    else (if cells[0] == Some(p) then 1 else 0) + CountOf(cells[1..], p)
  }

  lemma {:induction false} CountOfSplits(cells: seq<Cell>)
    ensures CountOf(cells, X) + CountOf(cells, O) == CountSome(cells)
  {
    if cells != [] {
      CountOfSplits(cells[1..]);
      assert CountOf(cells, X) == (if cells[0] == Some(X) then 1 else 0) + CountOf(cells[1..], X);
      assert CountOf(cells, O) == (if cells[0] == Some(O) then 1 else 0) + CountOf(cells[1..], O);
      match cells[0]
      case None =>
      case Some(X) =>
      case Some(O) =>
    }
  }

  lemma {:induction false} CountOfPut(cells: seq<Cell>, k: nat, p: Piece, q: Piece)
    requires k < |cells| && cells[k] == None
    ensures CountOf(cells[k := Some(p)], q) == CountOf(cells, q) + (if p == q then 1 else 0)
  {
    if k > 0 {
      assert cells[k := Some(p)][1..] == cells[1..][k - 1 := Some(p)];
      CountOfPut(cells[1..], k - 1, p, q);
    } else {
      assert cells[k := Some(p)][1..] == cells[1..];
    }
  }

  lemma {:induction false} CountOfEmpty(n: nat, p: Piece)
    ensures CountOf(seq<Cell>(n, k => None), p) == 0
  {
    if n > 0 {
      assert seq<Cell>(n, k => None)[1..] == seq<Cell>(n - 1, k => None);
      CountOfEmpty(n - 1, p);
    }
  }

  /** What holds of `board` and `turn` between two calls on a `Game`: no line
      is complete, the board is not full, and X has moved once more than O
      exactly when it is O's turn (every round starts with X). */
  ghost predicate RoundInvariant(r: Round) {
    && !HasLine(r.board)
    && !IsFull(r.board)
    && CountOf(r.board, X) == CountOf(r.board, O) + (if r.turn == O then 1 else 0)
  }

  /** `Game::play` on a board and turn: the result and the new board and turn.
      The turn is checked before the board is indexed, so only a request in
      turn needs a cell within the board (Rust panics on the others). */
  function PlayStep(r: Round, piece: Piece, i: nat, j: nat): (out: (Response, Round))
    requires piece == r.turn ==> Offset(i, j) < 9
    ensures piece != r.turn ==> out == (Invalid, r)
    ensures piece == r.turn && Get(r.board, i, j).Some? ==> out == (Invalid, r)
    ensures piece == r.turn && Get(r.board, i, j) == None ==> out.0.Valid?
    ensures out.0 == Invalid || out.0.Valid?
    ensures out.0.Valid? ==>
      && piece == r.turn
      && Get(r.board, i, j) == None
      && out.0.board == Put(r.board, i, j, Some(piece))
      && out.0.state == CheckEnd(out.0.board, piece)
  {
    if piece != r.turn then (Invalid, r)
    else if Get(r.board, i, j).Some? then (Invalid, r)
    else
      var board := Put(r.board, i, j, Some(piece));
      var state := CheckEnd(board, piece);
      var next := if state != Playing then Round(New(), DefaultPiece) else Round(board, Other(r.turn));
      (Valid(board, state), next)
  }

  /** A valid move flips the turn while the round goes on; when the round ends
      the board is cleared and X moves next, whoever started the round. */
  lemma PlayStepNextRound(r: Round, piece: Piece, i: nat, j: nat)
    requires piece == r.turn ==> Offset(i, j) < 9
    requires PlayStep(r, piece, i, j).0.Valid?
    ensures var (res, next) := PlayStep(r, piece, i, j);
      && piece == r.turn
      && (res.state == Playing ==> next == Round(res.board, Other(r.turn)))
      && (res.state != Playing ==> next == Round(New(), X))
  {
  }

  lemma EmptyBoardCounts(p: Piece)
    ensures CountOf(New(), p) == 0
  {
    CountOfEmpty(9, p);
  }

  /** The empty board of a fresh game or a new round satisfies the invariant. */
  lemma NewRoundInvariant()
    ensures RoundInvariant(Round(New(), X))
  {
    var b := New();
    EmptyBoardCounts(X);
    EmptyBoardCounts(O);
    assert !HasLine(b) by {
      forall n | 0 <= n < |Lines| ensures !Complete(b, Lines[n]) {
        assert b[Lines[n].0] == None;
      }
    }
    assert !IsFull(b) by {
      IsFullIff(b);
      assert b[0] == None;
    }
  }

  /** `play` keeps the invariant. */
  lemma PlayStepInvariant(r: Round, piece: Piece, i: nat, j: nat)
    requires (piece == r.turn ==> Offset(i, j) < 9) && RoundInvariant(r)
    ensures RoundInvariant(PlayStep(r, piece, i, j).1)
  {
    var (res, next) := PlayStep(r, piece, i, j);
    if res.Valid? {
      CheckEndClassifies(res.board, piece);
      if res.state == Playing {
        CountOfPut(r.board, Offset(i, j), piece, X);
        CountOfPut(r.board, Offset(i, j), piece, O);
      } else {
        NewRoundInvariant();
      }
    }
  }

  /** Placing a piece on a board with no complete line completes only lines
      through that cell, so every complete line afterwards belongs to the mover. */
  lemma {:induction false} NewLinesBelongToMover(b: Board, k: nat, p: Piece)
    requires k < 9 && b[k] == None && !HasLine(b)
    ensures forall n :: 0 <= n < |Lines| && Complete(b[k := Some(p)], Lines[n]) ==>
      b[k := Some(p)][Lines[n].0] == Some(p)
  {
    var b' := b[k := Some(p)];
    forall n | 0 <= n < |Lines| && Complete(b', Lines[n])
      ensures b'[Lines[n].0] == Some(p)
    {
      assert !Complete(b, Lines[n]);
    }
  }

  /** `check_end` reports `Win` with the mover, not with the owner of the line;
      under the invariant the two agree: after a winning move every complete
      line is the mover's. */
  lemma PlayStepWinnerOwnsLine(r: Round, piece: Piece, i: nat, j: nat)
    requires (piece == r.turn ==> Offset(i, j) < 9) && RoundInvariant(r)
    requires PlayStep(r, piece, i, j).0.Valid? && PlayStep(r, piece, i, j).0.state.Win?
    ensures var res := PlayStep(r, piece, i, j).0;
      && res.state == Win(piece)
      && OwnsLine(res.board, piece)
      && !OwnsLine(res.board, Other(piece))
  {
    var res := PlayStep(r, piece, i, j).0;
    CheckEndClassifies(res.board, piece);
    NewLinesBelongToMover(r.board, Offset(i, j), piece);
  }

  /** Every round starts with X: when the board is empty, it is X's turn. */
  lemma RoundStartsWithX(r: Round)
    requires RoundInvariant(r) && r.board == New()
    ensures r.turn == X
  {
    EmptyBoardCounts(X);
    EmptyBoardCounts(O);
  }

  /** X always makes the ninth move, so only X's move can end in a stalemate. */
  lemma StalemateOnlyAfterX(r: Round, piece: Piece, i: nat, j: nat)
    requires (piece == r.turn ==> Offset(i, j) < 9) && RoundInvariant(r)
    requires PlayStep(r, piece, i, j).0.Valid? && PlayStep(r, piece, i, j).0.state == Stalemate
    ensures piece == X
  {
    var b := PlayStep(r, piece, i, j).0.board;
    CheckEndClassifies(b, piece);
    CountOfPut(r.board, Offset(i, j), piece, X);
    CountOfPut(r.board, Offset(i, j), piece, O);
    CountOfSplits(b);
  }

  /** Both players ask for the same empty cell. Served first, the player whose
      turn it is not is refused. Served second, that player is refused unless
      the first move ended the round, in which case the fresh board lets X in. */
  lemma RaceForOneCell(r: Round, i: nat, j: nat)
    requires Offset(i, j) < 9 && RoundInvariant(r) && Get(r.board, i, j) == None
    ensures PlayStep(r, Other(r.turn), i, j).0 == Invalid
    ensures var (first, r1) := PlayStep(r, r.turn, i, j);
      && first.Valid?
      && (first.state == Playing ==> PlayStep(r1, Other(r.turn), i, j).0 == Invalid)
      && (first.state != Playing ==>
           (PlayStep(r1, Other(r.turn), i, j).0.Valid? <==> Other(r.turn) == X))
  {
  }

  /** `assign_piece`'s choice of key: O when X is registered, otherwise X. It
      names a free seat whenever one exists. */
  function ChoosePiece(players: map<Piece, ConnId>): (p: Piece)
    ensures X !in players ==> p == X
    ensures |players| < 2 ==> p !in players
  {
    AtMostTwoPlayers(players);
    if X in players then O else X
  }

  /** `assign_piece` on the map of players: `then_some` evaluates its argument
      before looking at the condition, so the insertion happens in every case. */
  function Assign(players: map<Piece, ConnId>, stream: ConnId): (out: (Option<Piece>, map<Piece, ConnId>)) {
    var piece := ChoosePiece(players);
    (if |players| < 2 then Some(piece) else None, players[piece := stream])
  }

  /** A map keyed by pieces has at most two entries. */
  lemma AtMostTwoPlayers(players: map<Piece, ConnId>)
    ensures |players| <= 2
    ensures |players| == 2 <==> X in players && O in players
    ensures |players| == 2 ==> players.Keys == {X, O}
  {
    var keys := players.Keys;
    assert forall p :: p in keys ==> p == X || p == O;
    if X in keys && O in keys {
      assert keys == {X, O};
    } else if X in keys {
      assert keys == {X};
    } else if O in keys {
      assert keys == {O};
    } else {
      assert keys == {};
    }
  }

  /** With a seat free, the new connection gets a piece nobody holds, X when X
      is free, and the map grows by one. */
  lemma AssignFreeSeat(players: map<Piece, ConnId>, stream: ConnId)
    requires |players| < 2
    ensures var (r, after) := Assign(players, stream);
      && r.Some?
      && r.value !in players
      && (r.value == O <==> X in players)
      && after == players[r.value := stream]
      && |after| == |players| + 1
  {
    AtMostTwoPlayers(players);
  }

  /** With both seats taken, the answer is None, yet O's connection is replaced
      by the new one; X's entry and the number of players are unchanged. */
  lemma AssignFullSession(players: map<Piece, ConnId>, stream: ConnId)
    requires |players| >= 2
    ensures var (r, after) := Assign(players, stream);
      && r == None
      && after.Keys == players.Keys == {X, O}
      && after[X] == players[X]
      && after[O] == stream
  {
    AtMostTwoPlayers(players);
  }

  /** The keys of `players` in `BTreeMap` iteration order (ascending `Ord`). */
  function RecipientKeys(players: map<Piece, ConnId>): (keys: seq<Piece>)
    ensures forall a, b :: 0 <= a < b < |keys| ==> Less(keys[a], keys[b])
    ensures (X in players <==> X in keys) && (O in players <==> O in keys)
  {
    if X in players && O in players then [X, O]
    else if X in players then [X]
    else if O in players then [O]
    else []
  }

  /** The connections `broadcast` writes to, in iteration order. */
  function Recipients(players: map<Piece, ConnId>): (cs: seq<ConnId>)
    ensures |cs| == |RecipientKeys(players)|
    ensures forall k :: 0 <= k < |cs| ==> cs[k] == players[RecipientKeys(players)[k]]
  {
    var keys := RecipientKeys(players);
    seq(|keys|, k requires 0 <= k < |keys| => players[keys[k]])
  }

  /** Every write of `cs` succeeds under the oracle `writeOk`. */
  predicate Delivered(cs: seq<ConnId>, writeOk: ConnId -> bool) {
    forall k :: 0 <= k < |cs| ==> writeOk(cs[k])
  }

  /** The writes a loop over `cs` attempts when it stops at the first failure (`?`). */
  function Attempts(cs: seq<ConnId>, writeOk: ConnId -> bool): seq<ConnId> {
    if cs == [] then []
    else [cs[0]] + (if writeOk(cs[0]) then Attempts(cs[1..], writeOk) else [])
  }

  /** The attempted writes are a prefix of the recipients; all of them when
      every write succeeds, and otherwise ending with the one failed write. */
  lemma {:induction false} AttemptsStopAtFailure(cs: seq<ConnId>, writeOk: ConnId -> bool)
    ensures var a := Attempts(cs, writeOk);
      && a <= cs
      && (Delivered(cs, writeOk) <==> a == cs && Delivered(a, writeOk))
      && (!Delivered(cs, writeOk) ==>
            a != [] && !writeOk(a[|a| - 1]) && Delivered(a[..|a| - 1], writeOk))
  {
    if cs != [] {
      AttemptsStopAtFailure(cs[1..], writeOk);
      var rest := Attempts(cs[1..], writeOk);
      if writeOk(cs[0]) {
        assert Attempts(cs, writeOk) == [cs[0]] + rest;
        assert Delivered(cs, writeOk) <==> Delivered(cs[1..], writeOk);
        if rest != [] {
          assert ([cs[0]] + rest)[..|rest|] == [cs[0]] + rest[..|rest| - 1];
        }
      } else {
        assert Attempts(cs, writeOk) == [cs[0]];
      }
    }
  }

  /** When the first `i` writes succeed and write `i` fails, exactly the
      first `i + 1` are attempted. */
  lemma {:induction false} AttemptsAtFailure(cs: seq<ConnId>, writeOk: ConnId -> bool, i: nat)
    requires i < |cs| && Delivered(cs[..i], writeOk) && !writeOk(cs[i])
    ensures Attempts(cs, writeOk) == cs[..i + 1]
  {
    if i == 0 {
      assert cs[..1] == [cs[0]];
    } else {
      assert cs[..i][0] == cs[0];
      var tail := cs[1..];
      var done := tail[..i - 1];
      assert Delivered(done, writeOk) by {
        forall k | 0 <= k < i - 1 ensures writeOk(done[k]) {
          assert done[k] == cs[..i][k + 1];
        }
      }
      assert tail[i - 1] == cs[i];
      AttemptsAtFailure(tail, writeOk, i - 1);
      assert [cs[0]] + tail[..i] == cs[..i + 1];
    }
  }

  class Game {
    var board: Board
    var players: map<Piece, ConnId>
    var turn: Piece

    ghost predicate Valid()
      reads this
    {
      RoundInvariant(Round(board, turn))
    }

    /** `Game::new()` / `Game::default()`. */
    constructor ()
      ensures Valid()
      ensures board == New() && players == map[] && turn == X
    {
      board := New();
      players := map[];
      turn := DefaultPiece;
      NewRoundInvariant();
    }

    /** `Game::assign_piece`. */
    method AssignPiece(stream: ConnId) returns (r: Option<Piece>)
      requires Valid()
      modifies this
      ensures Valid()
      ensures (r, players) == Assign(old(players), stream)
      ensures board == old(board) && turn == old(turn)
    {
      var free := |players| < 2;
      var piece := if X in players then O else X;
      players := players[piece := stream];
      r := if free then Some(piece) else None;
    }

    /** `Game::play`. */
    method Play(piece: Piece, i: nat, j: nat) returns (res: Response)
      requires Valid() && (piece == turn ==> Offset(i, j) < 9)
      modifies this`board, this`turn
      ensures Valid()
      ensures (res, Round(board, turn)) == PlayStep(old(Round(board, turn)), piece, i, j)
      ensures res.Valid? && res.state.Win? ==>
        res.state == Win(piece) && OwnsLine(res.board, piece) && !OwnsLine(res.board, Other(piece))
    {
      ghost var before := Round(board, turn);
      if piece != turn {
        return Invalid;
      }
      if Get(board, i, j).Some? {
        return Invalid;
      }
      board := Put(board, i, j, Some(piece));
      turn := Next(turn);
      var state := CheckEnd(board, piece);
      var snapshot := board;
      if state != Playing {
        board := New();
        turn := DefaultPiece;
      }
      res := Response.Valid(snapshot, state);
      PlayStepInvariant(before, piece, i, j);
      if state.Win? {
        PlayStepWinnerOwnsLine(before, piece, i, j);
      }
    }

    /** `Game::broadcast`: one write per registered player in key order, stopping
        at the first failed write. */
    method Broadcast(writeOk: ConnId -> bool) returns (attempted: seq<ConnId>, ok: bool)
      ensures attempted == Attempts(Recipients(players), writeOk)
      ensures ok <==> Delivered(Recipients(players), writeOk)
    {
      var keys := RecipientKeys(players);
      ghost var cs := Recipients(players);
      attempted, ok := [], true;
      var i := 0;
      while i < |keys| && ok
        invariant 0 <= i <= |keys|
        invariant ok ==> attempted == cs[..i] && Delivered(cs[..i], writeOk)
        invariant !ok ==> attempted == Attempts(cs, writeOk) && !Delivered(cs, writeOk)
      {
        var stream := players[keys[i]];
        attempted := attempted + [stream];
        ok := writeOk(stream);
        assert cs[..i + 1] == cs[..i] + [cs[i]];
        if !ok {
          AttemptsAtFailure(cs, writeOk, i);
        }
        i := i + 1;
      }
      if ok {
        assert cs[..i] == cs;
        AttemptsStopAtFailure(cs, writeOk);
      }
    }

    /** `Game::send`: one write to `piece`'s connection; an unregistered piece
        fails without writing anything. */
    method Send(piece: Piece, writeOk: ConnId -> bool) returns (attempted: seq<ConnId>, ok: bool)
      ensures piece in players ==> attempted == [players[piece]] && ok == writeOk(players[piece])
      ensures piece !in players ==> attempted == [] && !ok
    {
      if piece in players {
        var stream := players[piece];
        attempted := [stream];
        ok := writeOk(stream);
      } else {
        attempted, ok := [], false;
      }
    }
  }
}
