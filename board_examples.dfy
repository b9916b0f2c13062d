/** The board tests of core/src/game/board.rs, stated on the model. Each test
    string is given as its tokens and the whitespace between them. */
module BoardExamples {
  import opened Util
  import opened Pieces
  import opened GameStates
  import opened Boards
  import opened BoardText

  /** The board parsed from words joined by whitespace gaps, cell by cell. */
  lemma ParsedBoardEquals(ts: seq<string>, gaps: seq<string>, b: Board)
    requires |ts| <= |gaps| + 1
    requires forall n :: 0 <= n < |ts| ==> IsWord(ts[n])
    requires AreGaps(gaps)
    requires forall k :: 0 <= k < 9 ==> b[k] == if k < |ts| then ParseCell(ts[k]) else None
    ensures ParsedBoard(Unwords(ts, gaps)) == b
  {
    forall k | 0 <= k < 9 ensures ParsedBoard(Unwords(ts, gaps))[k] == b[k] {
      ParsedBoardOfWords(ts, gaps, k);
    }
  }

  /** Single spaces between tokens. */
  const Spaces: seq<string> := [" ", " ", " ", " ", " ", " ", " ", " ", " "]

  /** Single spaces within a row, two between rows: "a b c  d e f  g h i". */
  const RowSpacing: seq<string> := [" ", " ", "  ", " ", " ", "  ", " ", " "]

  lemma SpacingsAreGaps()
    ensures AreGaps(Spaces) && AreGaps(RowSpacing)
  {
  }

  /** Three words, one space apart. */
  lemma ThreeWords(ts: seq<string>, gaps: seq<string>)
    requires |ts| == 3 && |gaps| >= 2 && gaps[0] == " " && gaps[1] == " "
    ensures Unwords(ts, gaps) == ts[0] + " " + (ts[1] + " " + ts[2])
  {
    assert Unwords(ts[2..], gaps[2..]) == ts[2];
  }

  /** Five words, one space apart. */
  lemma FiveWords(ts: seq<string>, gaps: seq<string>)
    requires |ts| == 5 && |gaps| >= 4
    requires gaps[0] == " " && gaps[1] == " " && gaps[2] == " " && gaps[3] == " "
    ensures Unwords(ts, gaps) == ts[0] + " " + (ts[1] + " " + (ts[2] + " " + (ts[3] + " " + ts[4])))
  {
    assert Unwords(ts[4..], gaps[4..]) == ts[4];
    assert Unwords(ts[3..], gaps[3..]) == ts[3] + " " + ts[4];
    assert Unwords(ts[2..], gaps[2..]) == ts[2] + " " + (ts[3] + " " + ts[4]);
    assert Unwords(ts[1..], gaps[1..]) == ts[1] + " " + (ts[2] + " " + (ts[3] + " " + ts[4]));
  }

  /** Words `k` to `k + 2`, one space apart. */
  lemma ThreeWordsAt(ts: seq<string>, gaps: seq<string>, k: nat)
    requires k + 3 <= |ts| && k + 2 <= |gaps| && gaps[k] == " " && gaps[k + 1] == " "
    ensures Unwords(ts[k..k + 3], gaps[k..]) == ts[k] + " " + (ts[k + 1] + " " + ts[k + 2])
  {
    var w := ts[k..k + 3];
    assert w[0] == ts[k] && w[1] == ts[k + 1] && w[2] == ts[k + 2];
    ThreeWords(w, gaps[k..]);
  }

  /** Words `k` to `k + 4`, one space apart. */
  lemma FiveWordsAt(ts: seq<string>, gaps: seq<string>, k: nat)
    requires k + 5 <= |ts| && k + 4 <= |gaps|
    requires gaps[k] == " " && gaps[k + 1] == " " && gaps[k + 2] == " " && gaps[k + 3] == " "
    ensures Unwords(ts[k..k + 5], gaps[k..]) ==
      ts[k] + " " + (ts[k + 1] + " " + (ts[k + 2] + " " + (ts[k + 3] + " " + ts[k + 4])))
  {
    var w := ts[k..k + 5];
    assert w[0] == ts[k] && w[1] == ts[k + 1] && w[2] == ts[k + 2] && w[3] == ts[k + 3] && w[4] == ts[k + 4];
    FiveWords(w, gaps[k..]);
  }

  /** Ten words as two halves of five, with `gaps[4]` between them. */
  lemma TenInHalves(ts: seq<string>, gaps: seq<string>)
    requires |ts| == 10 && |gaps| >= 9
    ensures Unwords(ts, gaps) == Unwords(ts[0..5], gaps[0..]) + gaps[4] + Unwords(ts[5..10], gaps[5..])
  {
    UnwordsSplit(ts, gaps, 5);
    assert ts[..5] == ts[0..5] && gaps[0..] == gaps && ts[5..] == ts[5..10];
  }

  /** Eight words as five and three, with `gaps[4]` between them. */
  lemma EightAsFiveAndThree(ts: seq<string>, gaps: seq<string>)
    requires |ts| == 8 && |gaps| >= 7
    ensures Unwords(ts, gaps) == Unwords(ts[0..5], gaps[0..]) + gaps[4] + Unwords(ts[5..8], gaps[5..])
  {
    UnwordsSplit(ts, gaps, 5);
    assert ts[..5] == ts[0..5] && gaps[0..] == gaps && ts[5..] == ts[5..8];
  }

  /** Nine words as three rows of three, with `gaps[2]` and `gaps[5]` between the rows. */
  lemma NineInRows(ts: seq<string>, gaps: seq<string>)
    requires |ts| == 9 && |gaps| >= 8
    ensures Unwords(ts, gaps) ==
      Unwords(ts[0..3], gaps[0..]) + gaps[2] + (Unwords(ts[3..6], gaps[3..]) + gaps[5] + Unwords(ts[6..9], gaps[6..]))
  {
    UnwordsSplit(ts, gaps, 3);
    var rest, grest := ts[3..], gaps[3..];
    UnwordsSplit(rest, grest, 3);
    assert ts[..3] == ts[0..3] && gaps[0..] == gaps;
    assert rest[..3] == ts[3..6] && rest[3..] == ts[6..9];
    assert grest[3..] == gaps[6..] && grest[2] == gaps[5];
  }

  /** Words `k` to `k + 2` written one space apart. */
  function SpacedThree(ts: seq<string>, k: nat): string
    requires k + 3 <= |ts|
  {
    ts[k] + " " + (ts[k + 1] + " " + ts[k + 2])
  }

  /** Words `k` to `k + 4` written one space apart. */
  function SpacedFive(ts: seq<string>, k: nat): string
    requires k + 5 <= |ts|
  {
    ts[k] + " " + (ts[k + 1] + " " + (ts[k + 2] + " " + (ts[k + 3] + " " + ts[k + 4])))
  }

  /** Eight words joined by single spaces. */
  lemma EightSpaced(ts: seq<string>)
    requires |ts| == 8
    ensures Unwords(ts, Spaces) == SpacedFive(ts, 0) + " " + SpacedThree(ts, 5)
  {
    EightAsFiveAndThree(ts, Spaces);
    FiveWordsAt(ts, Spaces, 0);
    ThreeWordsAt(ts, Spaces, 5);
  }

  /** Ten words joined by single spaces. */
  lemma TenSpaced(ts: seq<string>)
    requires |ts| == 10
    ensures Unwords(ts, Spaces) == SpacedFive(ts, 0) + " " + SpacedFive(ts, 5)
  {
    TenInHalves(ts, Spaces);
    FiveWordsAt(ts, Spaces, 0);
    FiveWordsAt(ts, Spaces, 5);
  }

  /** Nine words joined by `RowSpacing`: three rows, two spaces apart. */
  lemma NineRowSpaced(ts: seq<string>)
    requires |ts| == 9
    ensures Unwords(ts, RowSpacing) == SpacedThree(ts, 0) + "  " + (SpacedThree(ts, 3) + "  " + SpacedThree(ts, 6))
  {
    NineInRows(ts, RowSpacing);
    ThreeWordsAt(ts, RowSpacing, 0);
    ThreeWordsAt(ts, RowSpacing, 3);
    ThreeWordsAt(ts, RowSpacing, 6);
  }

  /** The tokens of this test joined as in its string. */
  lemma EightNumbersGiveEmptyBoardText(ts: seq<string>)
    requires ts == ["1", "2", "3", "4", "5", "6", "7", "8"]
    ensures Unwords(ts, Spaces) == "1 2 3 4 5 6 7 8"
  {
    EightSpaced(ts);
    assert SpacedFive(ts, 0) == "1 2 3 4 5";
    assert SpacedThree(ts, 5) == "6 7 8";
  }

  /** "1 2 3 4 5 6 7 8": too few tokens, none of them a piece: every cell is empty. */
  lemma EightNumbersGiveEmptyBoard(ts: seq<string>)
    requires ts == ["1", "2", "3", "4", "5", "6", "7", "8"]
    ensures Unwords(ts, Spaces) == "1 2 3 4 5 6 7 8"
    ensures ParsedBoard(Unwords(ts, Spaces)) == New()
  {
    assert forall n :: 0 <= n < |ts| ==> IsWord(ts[n]);
    SpacingsAreGaps();
    ParsedBoardEquals(ts, Spaces, New());
    EightNumbersGiveEmptyBoardText(ts);
  }

  /** The tokens of this test joined as in its string. */
  lemma TenNumbersGiveEmptyBoardText(ts: seq<string>)
    requires ts == ["1", "2", "3", "4", "5", "6", "7", "8", "9", "10"]
    ensures Unwords(ts, Spaces) == "1 2 3 4 5 6 7 8 9 10"
  {
    TenSpaced(ts);
    assert SpacedFive(ts, 0) == "1 2 3 4 5";
    assert SpacedFive(ts, 5) == "6 7 8 9 10";
  }

  /** "1 2 3 4 5 6 7 8 9 10": tokens past the ninth are ignored. */
  lemma TenNumbersGiveEmptyBoard(ts: seq<string>)
    requires ts == ["1", "2", "3", "4", "5", "6", "7", "8", "9", "10"]
    ensures Unwords(ts, Spaces) == "1 2 3 4 5 6 7 8 9 10"
    ensures ParsedBoard(Unwords(ts, Spaces)) == New()
  {
    assert forall n :: 0 <= n < |ts| ==> IsWord(ts[n]);
    SpacingsAreGaps();
    ParsedBoardEquals(ts, Spaces, New());
    TenNumbersGiveEmptyBoardText(ts);
  }

  /** The tokens of this test joined as in its string. */
  lemma TenPiecesFillBoardText(ts: seq<string>)
    requires ts == ["o", "o", "o", "o", "o", "o", "o", "o", "o", "o"]
    ensures Unwords(ts, Spaces) == "o o o o o o o o o o"
  {
    TenSpaced(ts);
    assert SpacedFive(ts, 0) == "o o o o o";
    assert SpacedFive(ts, 5) == "o o o o o";
  }

  /** "o o o o o o o o o o": ten pieces: the first nine fill the board. */
  lemma TenPiecesFillBoard(ts: seq<string>)
    requires ts == ["o", "o", "o", "o", "o", "o", "o", "o", "o", "o"]
    ensures Unwords(ts, Spaces) == "o o o o o o o o o o"
    ensures ParsedBoard(Unwords(ts, Spaces)) == seq(9, k => Some(O))
  {
    assert forall n :: 0 <= n < |ts| ==> IsWord(ts[n]);
    SpacingsAreGaps();
    ParsedBoardEquals(ts, Spaces, seq(9, k => Some(O)));
    TenPiecesFillBoardText(ts);
  }

  /** The tokens of this test joined as in its string. */
  lemma TopAndBottomRowsWinText(ts: seq<string>)
    requires ts == ["x", "x", "x", "-", "-", "-", "x", "x", "x"]
    ensures Unwords(ts, RowSpacing) == "x x x  - - -  x x x"
  {
    NineRowSpaced(ts);
    assert SpacedThree(ts, 0) == "x x x";
    assert SpacedThree(ts, 3) == "- - -";
    assert SpacedThree(ts, 6) == "x x x";
  }

  /** "x x x  - - -  x x x": two complete rows still make one win, for the argument piece. */
  lemma TopAndBottomRowsWin(ts: seq<string>)
    requires ts == ["x", "x", "x", "-", "-", "-", "x", "x", "x"]
    ensures Unwords(ts, RowSpacing) == "x x x  - - -  x x x"
    ensures CheckEnd(ParsedBoard(Unwords(ts, RowSpacing)), X) == Win(X)
  {
    assert forall n :: 0 <= n < |ts| ==> IsWord(ts[n]);
    SpacingsAreGaps();
    ParsedBoardEquals(ts, RowSpacing, [Some(X), Some(X), Some(X), None, None, None, Some(X), Some(X), Some(X)]);
    TopAndBottomRowsWinText(ts);
  }

  /** The tokens of this test joined as in its string. */
  lemma MiddleRowWinsText(ts: seq<string>)
    requires ts == ["-", "-", "-", "x", "x", "x", "-", "-", "-"]
    ensures Unwords(ts, RowSpacing) == "- - -  x x x  - - -"
  {
    NineRowSpaced(ts);
    assert SpacedThree(ts, 0) == "- - -";
    assert SpacedThree(ts, 3) == "x x x";
    assert SpacedThree(ts, 6) == "- - -";
  }

  /** "- - -  x x x  - - -" */
  lemma MiddleRowWins(ts: seq<string>)
    requires ts == ["-", "-", "-", "x", "x", "x", "-", "-", "-"]
    ensures Unwords(ts, RowSpacing) == "- - -  x x x  - - -"
    ensures CheckEnd(ParsedBoard(Unwords(ts, RowSpacing)), X) == Win(X)
  {
    assert forall n :: 0 <= n < |ts| ==> IsWord(ts[n]);
    SpacingsAreGaps();
    ParsedBoardEquals(ts, RowSpacing, [None, None, None, Some(X), Some(X), Some(X), None, None, None]);
    MiddleRowWinsText(ts);
  }

  /** The tokens of this test joined as in its string. */
  lemma BottomRowWinsText(ts: seq<string>)
    requires ts == ["-", "-", "-", "-", "-", "-", "x", "x", "x"]
    ensures Unwords(ts, RowSpacing) == "- - -  - - -  x x x"
  {
    NineRowSpaced(ts);
    assert SpacedThree(ts, 0) == "- - -";
    assert SpacedThree(ts, 3) == "- - -";
    assert SpacedThree(ts, 6) == "x x x";
  }

  /** "- - -  - - -  x x x" */
  lemma BottomRowWins(ts: seq<string>)
    requires ts == ["-", "-", "-", "-", "-", "-", "x", "x", "x"]
    ensures Unwords(ts, RowSpacing) == "- - -  - - -  x x x"
    ensures CheckEnd(ParsedBoard(Unwords(ts, RowSpacing)), X) == Win(X)
  {
    assert forall n :: 0 <= n < |ts| ==> IsWord(ts[n]);
    SpacingsAreGaps();
    ParsedBoardEquals(ts, RowSpacing, [None, None, None, None, None, None, Some(X), Some(X), Some(X)]);
    BottomRowWinsText(ts);
  }

  /** The tokens of this test joined as in its string. */
  lemma DiagonalWinsText(ts: seq<string>)
    requires ts == ["x", "-", "-", "-", "x", "-", "-", "-", "x"]
    ensures Unwords(ts, RowSpacing) == "x - -  - x -  - - x"
  {
    NineRowSpaced(ts);
    assert SpacedThree(ts, 0) == "x - -";
    assert SpacedThree(ts, 3) == "- x -";
    assert SpacedThree(ts, 6) == "- - x";
  }

  /** "x - -  - x -  - - x" */
  lemma DiagonalWins(ts: seq<string>)
    requires ts == ["x", "-", "-", "-", "x", "-", "-", "-", "x"]
    ensures Unwords(ts, RowSpacing) == "x - -  - x -  - - x"
    ensures CheckEnd(ParsedBoard(Unwords(ts, RowSpacing)), X) == Win(X)
  {
    assert forall n :: 0 <= n < |ts| ==> IsWord(ts[n]);
    SpacingsAreGaps();
    ParsedBoardEquals(ts, RowSpacing, [Some(X), None, None, None, Some(X), None, None, None, Some(X)]);
    DiagonalWinsText(ts);
  }

  /** The tokens of this test joined as in its string. */
  lemma AntiDiagonalWinsText(ts: seq<string>)
    requires ts == ["-", "-", "x", "-", "x", "-", "x", "-", "-"]
    ensures Unwords(ts, RowSpacing) == "- - x  - x -  x - -"
  {
    NineRowSpaced(ts);
    assert SpacedThree(ts, 0) == "- - x";
    assert SpacedThree(ts, 3) == "- x -";
    assert SpacedThree(ts, 6) == "x - -";
  }

  /** "- - x  - x -  x - -" */
  lemma AntiDiagonalWins(ts: seq<string>)
    requires ts == ["-", "-", "x", "-", "x", "-", "x", "-", "-"]
    ensures Unwords(ts, RowSpacing) == "- - x  - x -  x - -"
    ensures CheckEnd(ParsedBoard(Unwords(ts, RowSpacing)), X) == Win(X)
  {
    assert forall n :: 0 <= n < |ts| ==> IsWord(ts[n]);
    SpacingsAreGaps();
    ParsedBoardEquals(ts, RowSpacing, [None, None, Some(X), None, Some(X), None, Some(X), None, None]);
    AntiDiagonalWinsText(ts);
  }

  /** The tokens of this test joined as in its string. */
  lemma EmptyBoardPlaysText(ts: seq<string>)
    requires ts == ["-", "-", "-", "-", "-", "-", "-", "-", "-"]
    ensures Unwords(ts, RowSpacing) == "- - -  - - -  - - -"
  {
    NineRowSpaced(ts);
    assert SpacedThree(ts, 0) == "- - -";
    assert SpacedThree(ts, 3) == "- - -";
    assert SpacedThree(ts, 6) == "- - -";
  }

  /** "- - -  - - -  - - -": '-' is no piece: nine of them leave the board empty. */
  lemma EmptyBoardPlays(ts: seq<string>)
    requires ts == ["-", "-", "-", "-", "-", "-", "-", "-", "-"]
    ensures Unwords(ts, RowSpacing) == "- - -  - - -  - - -"
    ensures CheckEnd(ParsedBoard(Unwords(ts, RowSpacing)), X) == Playing
  {
    assert forall n :: 0 <= n < |ts| ==> IsWord(ts[n]);
    SpacingsAreGaps();
    ParsedBoardEquals(ts, RowSpacing, New());
    EmptyBoardEnds();
    EmptyBoardPlaysText(ts);
  }

  lemma EmptyBoardEnds()
    ensures CheckEnd(New(), X) == Playing
  {
    assert !IsFull(New()) by {
      IsFullIff(New());
    }
  }

  /** The tokens of this test joined as in its string. */
  lemma FullBoardStalemateText(ts: seq<string>)
    requires ts == ["o", "x", "o", "o", "x", "o", "x", "o", "x"]
    ensures Unwords(ts, RowSpacing) == "o x o  o x o  x o x"
  {
    NineRowSpaced(ts);
    assert SpacedThree(ts, 0) == "o x o";
    assert SpacedThree(ts, 3) == "o x o";
    assert SpacedThree(ts, 6) == "x o x";
  }

  /** "o x o  o x o  x o x": a full board without a line. */
  lemma FullBoardStalemate(ts: seq<string>)
    requires ts == ["o", "x", "o", "o", "x", "o", "x", "o", "x"]
    ensures Unwords(ts, RowSpacing) == "o x o  o x o  x o x"
    ensures CheckEnd(ParsedBoard(Unwords(ts, RowSpacing)), X) == Stalemate
  {
    assert forall n :: 0 <= n < |ts| ==> IsWord(ts[n]);
    SpacingsAreGaps();
    ParsedBoardEquals(ts, RowSpacing, [Some(O), Some(X), Some(O), Some(O), Some(X), Some(O), Some(X), Some(O), Some(X)]);
    FullBoardEnds();
    FullBoardStalemateText(ts);
  }

  lemma FullBoardEnds()
    ensures CheckEnd([Some(O), Some(X), Some(O), Some(O), Some(X), Some(O), Some(X), Some(O), Some(X)], X) == Stalemate
  {
  }
}
