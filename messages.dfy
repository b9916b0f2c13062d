/** The messages exchanged between client and server
    (core/src/request.rs, core/src/response.rs). */
module Messages {
  import opened Pieces
  import opened GameStates
  import opened Boards

  /** `Request`: the client asks to leave, or to place its piece at `idx`. */
  datatype Request = Disconnect | Play(idx: (nat, nat))

  /** `Response`. */
  datatype Response =
    | Valid(board: Board, state: GameState)
    | Invalid
    | WaitingForPlayer
    | Connect(board: Board, piece: Piece)
}
