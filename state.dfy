/** The round status reported after a move (core/src/game/state.rs). */
module GameStates {
  import opened Pieces

  datatype GameState = Playing | Win(piece: Piece) | Stalemate
}
