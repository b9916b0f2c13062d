/** The 3x3 board (core/src/game/board.rs). */
module Boards {
  import opened Util
  import opened Pieces
  import opened GameStates

  type Cell = Option<Piece>

  /** `Board([Option<Piece>; 9])`: a `Copy` value, so a sequence of nine cells. */
  type Board = b: seq<Cell> | |b| == 9
    witness [None, None, None, None, None, None, None, None, None]

  /** `Board::new()` / `Board::default()`: nine empty cells. */
  function New(): (b: Board)
    ensures forall k :: 0 <= k < 9 ==> b[k] == None
  {
    seq(9, k => None)
  }

  /** The position `Index<(usize, usize)>` maps `(i, j)` to. */
  function Offset(i: nat, j: nat): nat {
    i * 3 + j
  }

  /** `board[(i, j)]`; Rust panics unless `i * 3 + j < 9`. */
  function Get(b: Board, i: nat, j: nat): (c: Cell)
    requires Offset(i, j) < 9
  {
    b[Offset(i, j)]
  }

  /** `board[(i, j)] = v` through `IndexMut`: that one cell changes, no other does. */
  function Put(b: Board, i: nat, j: nat, v: Cell): (b': Board)
    requires Offset(i, j) < 9
    ensures Get(b', i, j) == v
    ensures forall k :: 0 <= k < 9 && k != Offset(i, j) ==> b'[k] == b[k]
  {
    b[Offset(i, j) := v]
  }

  /** The column is not range-checked: `(0, 5)` and `(1, 2)` name the same cell. */
  lemma OffsetOverflowsIntoNextRow(b: Board, i: nat, j: nat)
    requires Offset(i, j) < 9 && j >= 3
    ensures Get(b, i, j) == Get(b, i + 1, j - 3)
  {
  }

  /** `self.0.iter().flatten().count()`: the number of occupied cells. */
  function CountSome(cells: seq<Cell>): (n: nat)
    ensures n <= |cells|
  {
    if cells == [] then 0
    else (if cells[0].Some? then 1 else 0) + CountSome(cells[1..])
  }

  lemma {:induction false} CountSomeAll(cells: seq<Cell>)
    ensures CountSome(cells) == |cells| <==> forall k :: 0 <= k < |cells| ==> cells[k].Some?
  {
    if cells != [] {
      CountSomeAll(cells[1..]);
      assert forall k :: 1 <= k < |cells| ==> cells[k] == cells[1..][k - 1];
    }
  }

  /** `Board::is_full`. */
  predicate IsFull(b: Board) {
    CountSome(b) == 9
  }

  /** The board is full exactly when every cell holds a piece. */
  lemma IsFullIff(b: Board)
    ensures IsFull(b) <==> forall k :: 0 <= k < 9 ==> b[k].Some?
  {
    CountSomeAll(b);
  }

  /** The eight lines of three cells: rows, columns, diagonals. */
  const Lines: seq<(nat, nat, nat)> :=
    [(0, 1, 2), (3, 4, 5), (6, 7, 8),
     (0, 3, 6), (1, 4, 7), (2, 5, 8),
     (0, 4, 8), (2, 4, 6)]

  /** A line is complete when its three cells hold the same piece. */
  predicate Complete(b: Board, l: (nat, nat, nat))
    requires l.0 < 9 && l.1 < 9 && l.2 < 9
  {
    b[l.0].Some? && b[l.0] == b[l.1] && b[l.1] == b[l.2]
  }

  predicate HasLine(b: Board) {
    exists n :: 0 <= n < |Lines| && Complete(b, Lines[n])
  }

  /** Some line is filled with `p`. */
  predicate OwnsLine(b: Board, p: Piece) {
    exists n :: 0 <= n < |Lines| && Complete(b, Lines[n]) && b[Lines[n].0] == Some(p)
  }

  /** The equal-and-occupied test `check_end` applies to three cells. */
  predicate SameSome(a: Cell, b: Cell, c: Cell) {
    a.Some? && a == b && b == c
  }

  /** The `for i in 0..3` loop of `check_end`, from iteration `i` on:
      row `i`, then column `i`. */
  predicate RowOrColumnFrom(b: Board, i: nat)
    requires i <= 3
    decreases 3 - i
  {
    i < 3 &&
    (SameSome(Get(b, i, 0), Get(b, i, 1), Get(b, i, 2)) ||
     SameSome(Get(b, 0, i), Get(b, 1, i), Get(b, 2, i)) ||
     RowOrColumnFrom(b, i + 1))
  }

  /** `Board::check_end(piece)`: a win is reported with the ARGUMENT piece,
      whichever piece fills the line. */
  function CheckEnd(b: Board, piece: Piece): (r: GameState)
    ensures r.Win? ==> r.piece == piece
  {
    if RowOrColumnFrom(b, 0) then Win(piece)
    else if SameSome(Get(b, 0, 0), Get(b, 1, 1), Get(b, 2, 2)) then Win(piece)
    else if SameSome(Get(b, 0, 2), Get(b, 1, 1), Get(b, 2, 0)) then Win(piece)
    else if IsFull(b) then Stalemate
    else Playing
  }

  lemma RowOrColumnFromLines(b: Board)
    ensures RowOrColumnFrom(b, 0) <==>
      exists n :: 0 <= n < 6 && Complete(b, Lines[n])
  {
    assert !RowOrColumnFrom(b, 3);
    assert RowOrColumnFrom(b, 2) <==> Complete(b, Lines[2]) || Complete(b, Lines[5]);
    assert RowOrColumnFrom(b, 1) <==>
      Complete(b, Lines[1]) || Complete(b, Lines[4]) || RowOrColumnFrom(b, 2);
    assert RowOrColumnFrom(b, 0) <==>
      Complete(b, Lines[0]) || Complete(b, Lines[3]) || RowOrColumnFrom(b, 1);
  }

  /** `check_end` examines all eight lines: it reports `Win` exactly when a line
      is complete (so a win beats a full board), `Stalemate` exactly when no
      line is complete and the board is full, and `Playing` otherwise. */
  lemma CheckEndClassifies(b: Board, piece: Piece)
    ensures CheckEnd(b, piece) == Win(piece) <==> HasLine(b)
    ensures CheckEnd(b, piece) == Stalemate <==> !HasLine(b) && IsFull(b)
    ensures CheckEnd(b, piece) == Playing <==> !HasLine(b) && !IsFull(b)
  {
    RowOrColumnFromLines(b);
    assert SameSome(Get(b, 0, 0), Get(b, 1, 1), Get(b, 2, 2)) <==> Complete(b, Lines[6]);
    assert SameSome(Get(b, 0, 2), Get(b, 1, 1), Get(b, 2, 0)) <==> Complete(b, Lines[7]);
    assert HasLine(b) <==>
      (exists n :: 0 <= n < 6 && Complete(b, Lines[n])) ||
      Complete(b, Lines[6]) || Complete(b, Lines[7]);
  }
}

/** `Board::from_str` and the `Debug` rendering (core/src/game/board.rs:69-106). */
module BoardText {
  import opened Util
  import opened Pieces
  import opened Boards

  /** `char::is_whitespace`: the Unicode White_Space property. */
  predicate IsWhitespace(c: char) {
    ('\t' <= c <= '\r') || c == ' ' || c == '\U{85}' || c == '\U{A0}' ||
    c == '\U{1680}' || ('\U{2000}' <= c <= '\U{200A}') || c == '\U{2028}' ||
    c == '\U{2029}' || c == '\U{202F}' || c == '\U{205F}' || c == '\U{3000}'
  }

  /** Length of the leading run of non-whitespace characters. */
  function WordLength(s: string): (n: nat)
    ensures n <= |s|
    ensures forall k :: 0 <= k < n ==> !IsWhitespace(s[k])
    ensures n < |s| ==> IsWhitespace(s[n])
  {
    if s == [] || IsWhitespace(s[0]) then 0 else 1 + WordLength(s[1..])
  }

  /** `str::split_whitespace`: the maximal non-empty runs of non-whitespace. */
  function Tokens(s: string): (ts: seq<string>)
    decreases |s|
  {
    if s == [] then []
    else if IsWhitespace(s[0]) then Tokens(s[1..])
    else
      var n := WordLength(s);
      [s[..n]] + Tokens(s[n..])
  }

  predicate IsWord(t: string) {
    t != [] && forall k :: 0 <= k < |t| ==> !IsWhitespace(t[k])
  }

  /** Every token is non-empty and holds no whitespace. */
  lemma {:induction false} TokensAreWords(s: string)
    ensures forall n :: 0 <= n < |Tokens(s)| ==> IsWord(Tokens(s)[n])
    decreases |s|
  {
    if s == [] {
    } else if IsWhitespace(s[0]) {
      TokensAreWords(s[1..]);
    } else {
      var m := WordLength(s);
      TokensAreWords(s[m..]);
      assert Tokens(s) == [s[..m]] + Tokens(s[m..]);
    }
  }

  /** Words with `gaps[n]` between word `n` and word `n + 1`. */
  function Unwords(ts: seq<string>, gaps: seq<string>): string
    requires |ts| <= |gaps| + 1
  {
    if ts == [] then []
    else if |ts| == 1 then ts[0]
    else ts[0] + gaps[0] + Unwords(ts[1..], gaps[1..])
  }

  /** The text of words joined by gaps, cut after word `k`: the first `k`
      words, the gap after them, and the remaining words with their gaps. */
  lemma {:induction false} UnwordsSplit(ts: seq<string>, gaps: seq<string>, k: nat)
    requires 0 < k < |ts| <= |gaps| + 1
    ensures Unwords(ts, gaps) == Unwords(ts[..k], gaps) + gaps[k - 1] + Unwords(ts[k..], gaps[k..])
  {
    if k == 1 {
      assert Unwords(ts[..1], gaps) == ts[0];
    } else {
      var tail, gtail := ts[1..], gaps[1..];
      UnwordsSplit(tail, gtail, k - 1);
      assert ts[..k][1..] == tail[..k - 1];
      assert tail[k - 1..] == ts[k..] && gtail[k - 1..] == gaps[k..];
      assert Unwords(ts[..k], gaps) == ts[0] + gaps[0] + Unwords(tail[..k - 1], gtail);
    }
  }

  /** Gaps that are non-empty runs of whitespace. */
  predicate AreGaps(gaps: seq<string>) {
    forall n :: 0 <= n < |gaps| ==> gaps[n] != [] && IsBlank(gaps[n])
  }

  predicate IsBlank(gap: string) {
    forall k :: 0 <= k < |gap| ==> IsWhitespace(gap[k])
  }

  lemma {:induction false} TokensSkipGap(gap: string, s: string)
    requires IsBlank(gap)
    ensures Tokens(gap + s) == Tokens(s)
    decreases |gap|
  {
    if gap != [] {
      assert (gap + s)[1..] == gap[1..] + s;
      assert IsWhitespace((gap + s)[0]);
      assert Tokens(gap + s) == Tokens(gap[1..] + s);
      TokensSkipGap(gap[1..], s);
    } else {
      assert gap + s == s;
    }
  }

  lemma {:induction false} WordLengthOfWord(t: string, rest: string)
    requires IsWord(t)
    requires rest == [] || IsWhitespace(rest[0])
    ensures WordLength(t + rest) == |t|
    decreases |t|
  {
    if |t| > 1 {
      assert (t + rest)[1..] == t[1..] + rest;
      WordLengthOfWord(t[1..], rest);
    } else {
      assert (t + rest)[1..] == rest;
    }
  }

  /** Whitespace after a text does not lengthen its leading word. */
  lemma {:induction false} WordLengthBeforeGap(s: string, gap: string)
    requires IsBlank(gap)
    ensures WordLength(s + gap) == WordLength(s)
    decreases |s|
  {
    if s == [] {
      assert s + gap == gap;
    } else {
      assert (s + gap)[0] == s[0];
      assert (s + gap)[1..] == s[1..] + gap;
      WordLengthBeforeGap(s[1..], gap);
    }
  }

  /** Trailing whitespace does not change the tokens. */
  lemma {:induction false} TokensBeforeGap(s: string, gap: string)
    requires IsBlank(gap)
    ensures Tokens(s + gap) == Tokens(s)
    decreases |s|
  {
    if s == [] {
      TokensSkipGap(gap, []);
      assert gap + [] == gap && s + gap == gap;
    } else if IsWhitespace(s[0]) {
      assert (s + gap)[0] == s[0];
      assert (s + gap)[1..] == s[1..] + gap;
      TokensBeforeGap(s[1..], gap);
    } else {
      assert (s + gap)[0] == s[0];
      var n := WordLength(s);
      WordLengthBeforeGap(s, gap);
      assert (s + gap)[..n] == s[..n];
      assert (s + gap)[n..] == s[n..] + gap;
      TokensBeforeGap(s[n..], gap);
    }
  }

  /** Splitting words joined by non-empty whitespace gaps gives the words back. */
  lemma {:induction false} TokensOfUnwords(ts: seq<string>, gaps: seq<string>)
    requires |ts| <= |gaps| + 1
    requires forall n :: 0 <= n < |ts| ==> IsWord(ts[n])
    requires AreGaps(gaps)
    ensures Tokens(Unwords(ts, gaps)) == ts
  {
    if |ts| == 1 {
      WordLengthOfWord(ts[0], []);
      assert ts[0] + [] == ts[0];
      assert ts[0][|ts[0]|..] == [];
    } else if ts != [] {
      var t := ts[0];
      var rest := gaps[0] + Unwords(ts[1..], gaps[1..]);
      assert Unwords(ts, gaps) == t + rest;
      WordLengthOfWord(t, rest);
      assert (t + rest)[..|t|] == t;
      assert (t + rest)[|t|..] == rest;
      TokensSkipGap(gaps[0], Unwords(ts[1..], gaps[1..]));
      TokensOfUnwords(ts[1..], gaps[1..]);
    }
  }

  /** Cell `k` of the board parsed from words joined by whitespace gaps. */
  lemma ParsedBoardOfWords(ts: seq<string>, gaps: seq<string>, k: nat)
    requires |ts| <= |gaps| + 1
    requires forall n :: 0 <= n < |ts| ==> IsWord(ts[n])
    requires AreGaps(gaps) && k < 9
    ensures ParsedBoard(Unwords(ts, gaps))[k] == if k < |ts| then ParseCell(ts[k]) else None
  {
    TokensOfUnwords(ts, gaps);
  }

  /** `Piece::from_str(c).ok()`. */
  function ParseCell(t: string): (c: Cell)
    ensures c.Some? <==> ParsePiece(t).Ok?
  {
    match ParsePiece(t)
    case Ok(p) => Some(p)
    case Err(_) => None
  }

  /** What `Board::from_str` produces: cell `k` from token `k` for the first
      nine tokens, empty where tokens run out. */
  function ParsedBoard(s: string): Board {
    var ts := Tokens(s);
    seq(9, k requires 0 <= k < 9 => if k < |ts| then ParseCell(ts[k]) else None)
  }

  /** `Board::from_str`: fills a local array of nine cells from the first nine
      whitespace tokens; it never fails. */
  method FromStr(s: string) returns (r: Result<Board, string>)
    ensures r.Ok?
    ensures r.value == ParsedBoard(s)
  {
    var pieces := new Cell[9](k => None);
    var ts := Tokens(s);
    var n := if |ts| < 9 then |ts| else 9;
    var i := 0;
    while i < n
      invariant 0 <= i <= n
      invariant forall k :: 0 <= k < i ==> pieces[k] == ParseCell(ts[k])
      invariant forall k :: i <= k < 9 ==> pieces[k] == None
    {
      pieces[i] := ParseCell(ts[i]);
      i := i + 1;
    }
    r := Ok(pieces[..]);
  }

  /** A cell as `Debug` shows it: the piece's letter, or a space. */
  function CellChar(c: Cell): char {
    match c
    case None => ' '
    case Some(p) => PieceChar(p)
  }

  /** The character at position `k` of the 60-character rendering: five lines
      of twelve, the even ones showing a row as " a | b | c ", the odd ones the
      separator " - + - + - ". */
  function RenderedChar(b: Board, k: nat): char
    requires k < 60
  {
    var line, col := k / 12, k % 12;
    if col == 11 then '\n'
    else if line % 2 == 1 then
      (if col % 4 == 1 then '-' else if col % 4 == 3 then '+' else ' ')
    else if col % 4 == 1 then CellChar(b[(line / 2) * 3 + col / 4])
    else if col % 4 == 3 then '|'
    else ' '
  }

  function RowText(b: Board, r: nat): (t: string)
    requires r < 3
    ensures |t| == 12
  {
    [' ', CellChar(b[r * 3]), ' ', '|', ' ', CellChar(b[r * 3 + 1]), ' ', '|',
     ' ', CellChar(b[r * 3 + 2]), ' ', '\n']
  }

  const Separator: string := " - + - + - \n"

  /** Position `k` of the rendering lies on line `line`, at column `k - 12 * line`. */
  lemma LineOf(k: nat, line: nat)
    requires 12 * line <= k < 12 * line + 12
    ensures k / 12 == line && k % 12 == k - 12 * line
  {
  }

  lemma RowTextAt(b: Board, r: nat, s: string, base: nat)
    requires r < 3 && base == 24 * r && |s| == 60
    requires s[base..base + 12] == RowText(b, r)
    ensures forall k :: base <= k < base + 12 ==> s[k] == RenderedChar(b, k)
  {
    forall k | base <= k < base + 12
      ensures s[k] == RenderedChar(b, k)
    {
      assert s[k] == RowText(b, r)[k - base];
      LineOf(k, 2 * r);
      assert (2 * r) / 2 == r;
    }
  }

  lemma SeparatorAt(b: Board, l: nat, s: string, base: nat)
    requires l < 2 && base == 24 * l + 12 && |s| == 60
    requires s[base..base + 12] == Separator
    ensures forall k :: base <= k < base + 12 ==> s[k] == RenderedChar(b, k)
  {
    forall k | base <= k < base + 12
      ensures s[k] == RenderedChar(b, k)
    {
      assert s[k] == Separator[k - base];
      LineOf(k, 2 * l + 1);
    }
  }

  /** `Debug for Board`: three rows, with an empty cell shown as a space,
      separated by two separator lines. */
  method Render(b: Board) returns (s: string)
    ensures |s| == 60
    ensures forall k :: 0 <= k < 60 ==> s[k] == RenderedChar(b, k)
  {
    s := [];
    s := s + RowText(b, 0);
    s := s + Separator;
    s := s + RowText(b, 1);
    s := s + Separator;
    s := s + RowText(b, 2);
    assert s[0..12] == RowText(b, 0);
    assert s[12..24] == Separator;
    assert s[24..36] == RowText(b, 1);
    assert s[36..48] == Separator;
    assert s[48..60] == RowText(b, 2);
    RowTextAt(b, 0, s, 0);
    SeparatorAt(b, 0, s, 12);
    RowTextAt(b, 1, s, 24);
    SeparatorAt(b, 1, s, 36);
    RowTextAt(b, 2, s, 48);
  }
}
