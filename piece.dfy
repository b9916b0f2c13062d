/** The two markers of a game (core/src/game/piece.rs). */
module Pieces {
  import opened Util

  /** `Piece`: X and O, declared in this order, so the derived ordering puts X first. */
  datatype Piece = X | O

  /** `Piece::default()`. */
  const DefaultPiece: Piece := X

  /** The default piece is X, the least piece in the derived order. */
  lemma DefaultIsLeast(p: Piece)
    ensures DefaultPiece == X
    ensures p == DefaultPiece || Less(DefaultPiece, p)
  {
  }

  /** Position of a piece in the derived `Ord` (declaration order). */
  function Rank(p: Piece): (n: nat)
    ensures n < 2
  {
    match p
    case X => 0
    case O => 1
  }

  /** The derived `<` on pieces. */
  predicate Less(a: Piece, b: Piece) {
    Rank(a) < Rank(b)
  }

  /** The derived ordering is a strict total order with X before O. */
  lemma LessIsStrictTotalOrder(a: Piece, b: Piece)
    ensures Less(X, O) && !Less(O, X)
    ensures !Less(a, a)
    ensures a != b <==> Less(a, b) || Less(b, a)
    ensures !(Less(a, b) && Less(b, a))
  {
  }

  /** `Piece::other`: the opposite piece. */
  function Other(p: Piece): (q: Piece)
    ensures q != p
  {
    match p
    case X => O
    case O => X
  }

  lemma OtherIsInvolution(p: Piece)
    ensures Other(Other(p)) == p
  {
  }

  /** `Piece::next`, which overwrites `*self`: the model takes the old value
      and returns the value the variable holds afterwards. */
  method Next(p: Piece) returns (q: Piece)
    ensures q == Other(p)
    ensures q != p
  {
    q := match p
      case X => O
      case O => X;
  }

  /** ASCII upper-casing of one character. */
  function UpperChar(c: char): (u: char)
    ensures 'a' <= c <= 'z' ==> u as int == c as int - 32
    ensures !('a' <= c <= 'z') ==> u == c
  {
    if 'a' <= c <= 'z' then (c as int - 32) as char else c
  }

  /** `str::to_uppercase`, restricted to the ASCII letters. */
  function Upper(s: string): (u: string)
    ensures |u| == |s|
    ensures forall k :: 0 <= k < |s| ==> u[k] == UpperChar(s[k])
  {
    if s == [] then [] else [UpperChar(s[0])] + Upper(s[1..])
  }

  const InvalidPieceMessage: string := "Invalid Piece representation"

  /** `Piece::from_str`: the upper-cased text must be "X" or "O". */
  function ParsePiece(s: string): (r: Result<Piece, string>)
    ensures r.Err? ==> r.error == InvalidPieceMessage
  {
    var u := Upper(s);
    if u == "X" then Ok(X)
    else if u == "O" then Ok(O)
    else Err(InvalidPieceMessage)
  }

  /** Exactly "x", "X", "o" and "O" parse, each to the piece it names. */
  lemma ParsePieceAccepts(s: string)
    ensures ParsePiece(s) == Ok(X) <==> s == "x" || s == "X"
    ensures ParsePiece(s) == Ok(O) <==> s == "o" || s == "O"
    ensures ParsePiece(s).Err? <==> s !in {"x", "X", "o", "O"}
  {
    var u := Upper(s);
    if |s| == 1 {
      assert u == [UpperChar(s[0])];
      assert s == [s[0]];
    } else {
      assert |u| != 1;
    }
  }

  /** The character `Display` writes for a piece. */
  function PieceChar(p: Piece): (c: char)
    ensures c == 'X' || c == 'O'
  {
    match p
    case X => 'X'
    case O => 'O'
  }

  /** `Display for Piece`. */
  function Display(p: Piece): (s: string)
    ensures |s| == 1 && s[0] == PieceChar(p)
  {
    [PieceChar(p)]
  }

  /** Rendering then parsing gives the piece back. */
  lemma ParseDisplay(p: Piece)
    ensures ParsePiece(Display(p)) == Ok(p)
    ensures Display(X) == "X" && Display(O) == "O"
  {
    ParsePieceAccepts(Display(p));
  }
}
