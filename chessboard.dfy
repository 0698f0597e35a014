/** The move rules of the drag-and-drop board in src/components/chessboard.tsx.
    The component's `boardState` is passed explicitly: a board is 64 squares,
    square `i` on row `i / 8` and column `i % 8`, each empty or holding a piece. */
module Chessboard {
  import opened Types
  import Numeric

  /** A piece on the board: its glyph (the source's `label` field; `label` is a reserved word in Dafny), its kind and its colour. */
  datatype Piece = Piece(glyph: string, kind: Kind, color: Color)

  type Square = i: int | 0 <= i < 64

  type Board = b: seq<Option<Piece>> | |b| == 64 witness seq(64, _ => None)

  function Row(s: Square): (r: int)
    ensures 0 <= r < 8
  {
    s / 8
  }

  function Col(s: Square): (c: int)
    ensures 0 <= c < 8
  {
    s % 8
  }

  function Abs(x: int): nat {
    if x < 0 then -x else x
  }

  function Min(a: int, b: int): int {
    if a <= b then a else b
  }

  function Max(a: int, b: int): int {
    if a <= b then b else a
  }

  /** Row `r`, column `c` is square `r * 8 + c`. */
  lemma SquareAt(r: int, c: int)
    requires 0 <= r < 8 && 0 <= c < 8
    ensures 0 <= r * 8 + c < 64
    ensures Row(r * 8 + c) == r && Col(r * 8 + c) == c
  {
    Numeric.DivModUnique(r * 8 + c, 8, r, c);
  }

  // ---------------------------------------------------------------------------
  // isPathClear

  /** Square `s` lies strictly between `start` and `end` on the rank, file or
      diagonal joining them (tried in that order, as the source does). A pair
      on no common line has nothing between it. */
  predicate StrictlyBetween(start: Square, end: Square, s: Square) {
    var rs, cs, re, ce := Row(start), Col(start), Row(end), Col(end);
    if rs == re then
      Row(s) == rs && Min(cs, ce) < Col(s) < Max(cs, ce)
    else if cs == ce then
      Col(s) == cs && Min(rs, re) < Row(s) < Max(rs, re)
    else if Abs(rs - re) == Abs(cs - ce) then
      Min(rs, re) < Row(s) < Max(rs, re) &&
      Col(s) - cs == (if (re > rs) == (ce > cs) then Row(s) - rs else rs - Row(s))
    else
      false
  }

  /** Every square strictly between `start` and `end` is empty. */
  predicate NothingBetween(board: Board, start: Square, end: Square) {
    forall s | 0 <= s < 64 :: StrictlyBetween(start, end, s) ==> board[s].None?
  }

  /** The meaning of `isPathClear`: a Knight jumps; any other piece needs every
      square strictly between `start` and `end` to be empty. */
  predicate PathClear(board: Board, start: Square, end: Square, kind: Kind) {
    kind == Knight || NothingBetween(board, start, end)
  }

  /** `isPathClear`: scans the rank, the file or the diagonal square by square. */
  method IsPathClear(board: Board, start: Square, end: Square, pieceType: Kind) returns (clear: bool)
    ensures clear == PathClear(board, start, end, pieceType)
  {
    if pieceType == Knight {
      return true;
    }
    var rowStart, colStart := start / 8, start % 8;
    var rowEnd, colEnd := end / 8, end % 8;
    if rowStart == rowEnd {
      clear := ScanRank(board, start, end);
    } else if colStart == colEnd {
      clear := ScanFile(board, start, end);
    } else if Abs(rowStart - rowEnd) == Abs(colStart - colEnd) {
      clear := ScanDiagonal(board, start, end);
    } else {
      clear := true;
    }
  }

  /** The horizontal branch of `isPathClear`. */
  method ScanRank(board: Board, start: Square, end: Square) returns (clear: bool)
    requires Row(start) == Row(end)
    ensures clear == NothingBetween(board, start, end)
  {
    var rowStart, colStart, colEnd := start / 8, start % 8, end % 8;
    var startCol, endCol := Min(colStart, colEnd), Max(colStart, colEnd);
    var i := startCol + 1;
    while i < endCol
      invariant startCol + 1 <= i <= Max(endCol, startCol + 1)
      invariant forall s: Square :: StrictlyBetween(start, end, s) && Col(s) < i ==> board[s].None?
    {
      SquareAt(rowStart, i);
      if board[rowStart * 8 + i].Some? {
        assert StrictlyBetween(start, end, rowStart * 8 + i);
        return false;
      }
      i := i + 1;
    }
    return true;
  }

  /** The vertical branch of `isPathClear`. */
  method ScanFile(board: Board, start: Square, end: Square) returns (clear: bool)
    requires Row(start) != Row(end) && Col(start) == Col(end)
    ensures clear == NothingBetween(board, start, end)
  {
    var rowStart, colStart, rowEnd := start / 8, start % 8, end / 8;
    var startRow, endRow := Min(rowStart, rowEnd), Max(rowStart, rowEnd);
    var i := startRow + 1;
    while i < endRow
      invariant startRow + 1 <= i <= endRow
      invariant forall s: Square :: StrictlyBetween(start, end, s) && Row(s) < i ==> board[s].None?
    {
      SquareAt(i, colStart);
      if board[i * 8 + colStart].Some? {
        assert StrictlyBetween(start, end, i * 8 + colStart);
        return false;
      }
      i := i + 1;
    }
    return true;
  }

  /** The diagonal branch of `isPathClear`: walks from `start` towards `end`. */
  method ScanDiagonal(board: Board, start: Square, end: Square) returns (clear: bool)
    requires Row(start) != Row(end) && Col(start) != Col(end)
    requires Abs(Row(start) - Row(end)) == Abs(Col(start) - Col(end))
    ensures clear == NothingBetween(board, start, end)
  {
    var rowStart, colStart, rowEnd, colEnd := start / 8, start % 8, end / 8, end % 8;
    var rowDir := if rowEnd > rowStart then 1 else -1;
    var colDir := if colEnd > colStart then 1 else -1;
    var row, col := rowStart + rowDir, colStart + colDir;
    ghost var k := 1;
    while row != rowEnd
      invariant 1 <= k <= Abs(rowEnd - rowStart)
      invariant row == if rowDir == 1 then rowStart + k else rowStart - k
      invariant col == if colDir == 1 then colStart + k else colStart - k
      invariant forall s: Square :: StrictlyBetween(start, end, s) && Abs(Row(s) - rowStart) < k ==> board[s].None?
      decreases Abs(rowEnd - row)
    {
      SquareAt(row, col);
      if board[row * 8 + col].Some? {
        assert StrictlyBetween(start, end, row * 8 + col);
        return false;
      }
      row, col, k := row + rowDir, col + colDir, k + 1;
    }
    return true;
  }

  // ---------------------------------------------------------------------------
  // isValidMove

  /** `isValidMove`: no landing on a piece of one's own colour, a clear path,
      then the geometry of the piece's kind. Pawns only step forward (White
      towards higher indices), two squares from their starting rank. */
  function IsValidMove(board: Board, dragIndex: Square, dropIndex: Square, piece: Piece): (valid: bool)
    ensures valid ==> board[dropIndex].None? || board[dropIndex].value.color != piece.color
    ensures valid ==> PathClear(board, dragIndex, dropIndex, piece.kind)
    ensures valid && piece.kind == Rook ==> Row(dragIndex) == Row(dropIndex) || Col(dragIndex) == Col(dropIndex)
    ensures valid && piece.kind == Knight ==>
      (Abs(Row(dropIndex) - Row(dragIndex)), Abs(Col(dropIndex) - Col(dragIndex))) in {(2, 1), (1, 2)}
    ensures valid && piece.kind == Bishop ==> Abs(Row(dropIndex) - Row(dragIndex)) == Abs(Col(dropIndex) - Col(dragIndex))
    ensures valid && piece.kind == Queen ==>
      Row(dragIndex) == Row(dropIndex) || Col(dragIndex) == Col(dropIndex) ||
      Abs(Row(dropIndex) - Row(dragIndex)) == Abs(Col(dropIndex) - Col(dragIndex))
    ensures valid && piece.kind == King ==> Abs(Row(dropIndex) - Row(dragIndex)) <= 1 && Abs(Col(dropIndex) - Col(dragIndex)) <= 1
    ensures valid && piece.kind == Pawn && piece.color == White ==>
      dropIndex == dragIndex + 8 || (8 <= dragIndex <= 15 && dropIndex == dragIndex + 16)
    ensures valid && piece.kind == Pawn && piece.color == Black ==>
      dropIndex == dragIndex - 8 || (48 <= dragIndex <= 55 && dropIndex == dragIndex - 16)
  {
    var rowDiff := Abs(dropIndex / 8 - dragIndex / 8);
    var colDiff := Abs(dropIndex % 8 - dragIndex % 8);
    if board[dropIndex].Some? && board[dropIndex].value.color == piece.color then
      false
    else if !PathClear(board, dragIndex, dropIndex, piece.kind) then
      false
    else
      match piece.kind
      case Pawn =>
        if piece.color == White then
          if 8 <= dragIndex <= 15 then dropIndex == dragIndex + 8 || dropIndex == dragIndex + 16
          else dropIndex == dragIndex + 8
        else
          if 48 <= dragIndex <= 55 then dropIndex == dragIndex - 8 || dropIndex == dragIndex - 16
          else dropIndex == dragIndex - 8
      case Rook => rowDiff == 0 || colDiff == 0
      case Knight => (rowDiff == 2 && colDiff == 1) || (rowDiff == 1 && colDiff == 2)
      case Bishop => rowDiff == colDiff
      case Queen => rowDiff == colDiff || rowDiff == 0 || colDiff == 0
      case King => rowDiff <= 1 && colDiff <= 1
  }

  // ---------------------------------------------------------------------------
  // getValidMoves

  /** `getValidMoves`: every destination `isValidMove` accepts, in increasing order. */
  method GetValidMoves(board: Board, index: Square, piece: Piece) returns (validMoves: seq<Square>)
    ensures forall j, k :: 0 <= j < k < |validMoves| ==> validMoves[j] < validMoves[k]
    ensures forall s: Square :: s in validMoves <==> IsValidMove(board, index, s, piece)
  {
    validMoves := [];
    for i := 0 to 64
      invariant forall j, k :: 0 <= j < k < |validMoves| ==> validMoves[j] < validMoves[k]
      invariant forall j :: 0 <= j < |validMoves| ==> validMoves[j] < i
      invariant forall s: Square :: s in validMoves <==> s < i && IsValidMove(board, index, s, piece)
    {
      if IsValidMove(board, index, i, piece) {
        validMoves := validMoves + [i];
      }
    }
  }

  // ---------------------------------------------------------------------------
  // initializeBoard

  /** The order of the pieces on a back rank, from column 0 to column 7. */
  const BackRank: seq<Kind> := [Rook, Knight, Bishop, Queen, King, Bishop, Knight, Rook]

  /** The Unicode chess symbol the board shows for a piece. */
  function Glyph(kind: Kind, color: Color): string {
    match (color, kind)
    case (White, Rook) => "\U{2656}"
    case (White, Knight) => "\U{2658}"
    case (White, Bishop) => "\U{2657}"
    case (White, Queen) => "\U{2655}"
    case (White, King) => "\U{2654}"
    case (White, Pawn) => "\U{2659}"
    case (Black, Rook) => "\U{265C}"
    case (Black, Knight) => "\U{265E}"
    case (Black, Bishop) => "\U{265D}"
    case (Black, Queen) => "\U{265B}"
    case (Black, King) => "\U{265A}"
    case (Black, Pawn) => "\U{265F}"
  }

  function StandardPiece(kind: Kind, color: Color): Piece {
    Piece(Glyph(kind, color), kind, color)
  }

  /** Number of occupied squares. */
  function PieceCount(s: seq<Option<Piece>>): nat {
    if s == [] then 0 else (if s[0].Some? then 1 else 0) + PieceCount(s[1..])
  }

  lemma {:induction false} PieceCountConcat(a: seq<Option<Piece>>, b: seq<Option<Piece>>)
    ensures PieceCount(a + b) == PieceCount(a) + PieceCount(b)
  {
    if a != [] {
      assert (a + b)[1..] == a[1..] + b;
      PieceCountConcat(a[1..], b);
    } else {
      assert a + b == b;
    }
  }

  lemma {:induction false} PieceCountUniform(s: seq<Option<Piece>>)
    ensures (forall i :: 0 <= i < |s| ==> s[i].Some?) ==> PieceCount(s) == |s|
    ensures (forall i :: 0 <= i < |s| ==> s[i].None?) ==> PieceCount(s) == 0
  {
    if s != [] {
      PieceCountUniform(s[1..]);
    }
  }

  /** Replacing one square changes the count by what was removed and what was put. */
  lemma {:induction false} PieceCountUpdate(s: seq<Option<Piece>>, i: nat, x: Option<Piece>)
    requires i < |s|
    ensures PieceCount(s[i := x]) == PieceCount(s) - (if s[i].Some? then 1 else 0) + (if x.Some? then 1 else 0)
  {
    if i > 0 {
      assert s[i := x][1..] == s[1..][i - 1 := x];
      PieceCountUpdate(s[1..], i - 1, x);
    } else {
      assert s[i := x][1..] == s[1..];
    }
  }

  /** `initializeBoard`: the standard starting position, White on rows 0 and 1. */
  method InitializeBoard() returns (board: Board)
    ensures forall i :: 0 <= i < 8 ==> board[i] == Some(StandardPiece(BackRank[i], White))
    ensures forall i :: 8 <= i < 16 ==> board[i] == Some(StandardPiece(Pawn, White))
    ensures forall i :: 16 <= i < 48 ==> board[i].None?
    ensures forall i :: 48 <= i < 56 ==> board[i] == Some(StandardPiece(Pawn, Black))
    ensures forall i :: 56 <= i < 64 ==> board[i] == Some(StandardPiece(BackRank[i - 56], Black))
    ensures PieceCount(board) == 32
  {
    var initialBoard := new Option<Piece>[64](_ => None);
    SetWhitePieces(initialBoard);
    SetBlackPieces(initialBoard);
    board := initialBoard[..];
    StartingCount(board);
  }

  /** The White half of `initializeBoard`: back rank on 0..7, pawns on 8..15. */
  method SetWhitePieces(initialBoard: array<Option<Piece>>)
    requires initialBoard.Length == 64
    modifies initialBoard
    ensures forall k :: 0 <= k < 8 ==> initialBoard[k] == Some(StandardPiece(BackRank[k], White))
    ensures forall k :: 8 <= k < 16 ==> initialBoard[k] == Some(StandardPiece(Pawn, White))
    ensures forall k :: 16 <= k < 64 ==> initialBoard[k] == old(initialBoard[k])
  {
    initialBoard[0] := Some(Piece("\U{2656}", Rook, White));
    initialBoard[1] := Some(Piece("\U{2658}", Knight, White));
    initialBoard[2] := Some(Piece("\U{2657}", Bishop, White));
    initialBoard[3] := Some(Piece("\U{2655}", Queen, White));
    initialBoard[4] := Some(Piece("\U{2654}", King, White));
    initialBoard[5] := Some(Piece("\U{2657}", Bishop, White));
    initialBoard[6] := Some(Piece("\U{2658}", Knight, White));
    initialBoard[7] := Some(Piece("\U{2656}", Rook, White));
    for i := 8 to 16
      invariant forall k :: 0 <= k < 8 ==> initialBoard[k] == Some(StandardPiece(BackRank[k], White))
      invariant forall k :: 8 <= k < i ==> initialBoard[k] == Some(StandardPiece(Pawn, White))
      invariant forall k :: i <= k < 64 ==> initialBoard[k] == old(initialBoard[k])
    {
      initialBoard[i] := Some(Piece("\U{2659}", Pawn, White));
    }
  }

  /** The Black half of `initializeBoard`: back rank on 56..63, pawns on 48..55. */
  method SetBlackPieces(initialBoard: array<Option<Piece>>)
    requires initialBoard.Length == 64
    modifies initialBoard
    ensures forall k :: 0 <= k < 48 ==> initialBoard[k] == old(initialBoard[k])
    ensures forall k :: 48 <= k < 56 ==> initialBoard[k] == Some(StandardPiece(Pawn, Black))
    ensures forall k :: 56 <= k < 64 ==> initialBoard[k] == Some(StandardPiece(BackRank[k - 56], Black))
  {
    initialBoard[56] := Some(Piece("\U{265C}", Rook, Black));
    initialBoard[57] := Some(Piece("\U{265E}", Knight, Black));
    initialBoard[58] := Some(Piece("\U{265D}", Bishop, Black));
    initialBoard[59] := Some(Piece("\U{265B}", Queen, Black));
    initialBoard[60] := Some(Piece("\U{265A}", King, Black));
    initialBoard[61] := Some(Piece("\U{265D}", Bishop, Black));
    initialBoard[62] := Some(Piece("\U{265E}", Knight, Black));
    initialBoard[63] := Some(Piece("\U{265C}", Rook, Black));
    for i := 48 to 56
      invariant forall k :: 0 <= k < 48 ==> initialBoard[k] == old(initialBoard[k])
      invariant forall k :: 48 <= k < i ==> initialBoard[k] == Some(StandardPiece(Pawn, Black))
      invariant forall k :: 56 <= k < 64 ==> initialBoard[k] == Some(StandardPiece(BackRank[k - 56], Black))
    {
      initialBoard[i] := Some(Piece("\U{265F}", Pawn, Black));
    }
  }

  /** A board whose first and last two rows are full and whose middle four rows
      are empty holds 32 pieces. */
  lemma StartingCount(board: Board)
    requires forall i :: 0 <= i < 16 ==> board[i].Some?
    requires forall i :: 16 <= i < 48 ==> board[i].None?
    requires forall i :: 48 <= i < 64 ==> board[i].Some?
    ensures PieceCount(board) == 32
  {
    assert board == board[..16] + board[16..48] + board[48..];
    PieceCountConcat(board[..16] + board[16..48], board[48..]);
    PieceCountConcat(board[..16], board[16..48]);
    PieceCountUniform(board[..16]);
    PieceCountUniform(board[16..48]);
    PieceCountUniform(board[48..]);
  }

  // ---------------------------------------------------------------------------
  // handlePieceDrop

  /** The board update of `handlePieceDrop`: an accepted move puts the dragged
      piece on `dropIndex` (replacing whatever stood there) and empties
      `dragIndex`; a drag from outside the board, from an empty square, or a move
      `isValidMove` rejects leaves the board as it was. */
  method HandlePieceDrop(board: Board, dragIndex: int, dropIndex: Square) returns (next: Board)
    ensures if 0 <= dragIndex < 64 && board[dragIndex].Some? && IsValidMove(board, dragIndex, dropIndex, board[dragIndex].value)
      then dragIndex != dropIndex && next[dropIndex] == board[dragIndex] && next[dragIndex].None? &&
           (forall s :: 0 <= s < 64 && s != dragIndex && s != dropIndex ==> next[s] == board[s]) &&
           PieceCount(next) == PieceCount(board) - (if board[dropIndex].Some? then 1 else 0)
      else next == board
  {
    if !(0 <= dragIndex < 64) {
      return board;
    }
    var draggedPiece := board[dragIndex];
    if draggedPiece.None? {
      return board;
    }
    if !IsValidMove(board, dragIndex, dropIndex, draggedPiece.value) {
      return board;
    }
    var newBoardState := board;
    newBoardState := newBoardState[dropIndex := draggedPiece];
    newBoardState := newBoardState[dragIndex := None];
    PieceCountUpdate(board, dropIndex, draggedPiece);
    PieceCountUpdate(board[dropIndex := draggedPiece], dragIndex, None);
    return newBoardState;
  }

  // ---------------------------------------------------------------------------
  // Properties of the path scan

  /** Neither endpoint is ever strictly between, and whatever is strictly between
      lies strictly between the two indices. */
  lemma BetweenIsInterior(start: Square, end: Square, s: Square)
    requires StrictlyBetween(start, end, s)
    ensures s != start && s != end
    ensures Min(start, end) < s < Max(start, end)
  {
    assert s == Row(s) * 8 + Col(s);
    assert start == Row(start) * 8 + Col(start);
    assert end == Row(end) * 8 + Col(end);
  }

  /** The squares between two points do not depend on which one is the start. */
  lemma BetweenSymmetric(start: Square, end: Square, s: Square)
    ensures StrictlyBetween(start, end, s) == StrictlyBetween(end, start, s)
  {
  }

  lemma PathClearSymmetric(board: Board, start: Square, end: Square, kind: Kind)
    ensures PathClear(board, start, end, kind) == PathClear(board, end, start, kind)
  {
    forall s: Square {
      BetweenSymmetric(start, end, s);
    }
  }

  /** The scan never looks at the start or the end square: boards that differ
      only there give the same answer. */
  lemma PathClearIgnoresEndpoints(b1: Board, b2: Board, start: Square, end: Square, kind: Kind)
    requires forall s :: 0 <= s < 64 && s != start && s != end ==> b1[s] == b2[s]
    ensures PathClear(b1, start, end, kind) == PathClear(b2, start, end, kind)
  {
    forall s: Square | StrictlyBetween(start, end, s) {
      BetweenIsInterior(start, end, s);
    }
  }

  /** Two squares on no common rank, file or diagonal have a clear path. */
  lemma PathClearOffLine(board: Board, start: Square, end: Square, kind: Kind)
    requires Row(start) != Row(end) && Col(start) != Col(end)
    requires Abs(Row(start) - Row(end)) != Abs(Col(start) - Col(end))
    ensures PathClear(board, start, end, kind)
  {
  }

  /** Along a line the path is blocked exactly when a square strictly between is occupied. */
  lemma PathBlockedIff(board: Board, start: Square, end: Square, kind: Kind)
    requires kind != Knight
    ensures !PathClear(board, start, end, kind) <==>
      exists s: Square :: Min(start, end) < s < Max(start, end) && StrictlyBetween(start, end, s) && board[s].Some?
  {
    if !PathClear(board, start, end, kind) {
      var s: Square :| StrictlyBetween(start, end, s) && board[s].Some?;
      BetweenIsInterior(start, end, s);
    }
  }

  /** The only square strictly between `d` and `d + 16` is `d + 8`. */
  lemma BetweenTwoRanks(d: Square, s: Square)
    requires d + 16 < 64
    ensures StrictlyBetween(d, d + 16, s) <==> s == d + 8
  {
    assert Row(d + 16) == Row(d) + 2 && Col(d + 16) == Col(d);
    assert Row(d + 8) == Row(d) + 1 && Col(d + 8) == Col(d);
    assert s == Row(s) * 8 + Col(s);
  }

  /** Nothing lies strictly between `d` and `d + 8`. */
  lemma BetweenOneRank(d: Square, s: Square)
    requires d + 8 < 64
    ensures !StrictlyBetween(d, d + 8, s)
  {
    assert Row(d + 8) == Row(d) + 1 && Col(d + 8) == Col(d);
  }

  // ---------------------------------------------------------------------------
  // Properties of isValidMove

  /** A destination holding a piece of the mover's colour is rejected, so a piece
      can never be dropped back on its own square. */
  lemma OwnSquareRejected(board: Board, index: Square)
    requires board[index].Some?
    ensures !IsValidMove(board, index, index, board[index].value)
  {
  }

  /** A Queen moves exactly where a Rook or a Bishop of its colour could. */
  lemma QueenIsRookOrBishop(board: Board, drag: Square, drop: Square, glyph: string, color: Color)
    ensures IsValidMove(board, drag, drop, Piece(glyph, Queen, color)) <==>
      IsValidMove(board, drag, drop, Piece(glyph, Rook, color)) || IsValidMove(board, drag, drop, Piece(glyph, Bishop, color))
  {
  }

  /** A Knight's move depends on the destination square only, whatever the board
      holds elsewhere. */
  lemma KnightIgnoresBlockers(b1: Board, b2: Board, drag: Square, drop: Square, piece: Piece)
    requires piece.kind == Knight && b1[drop] == b2[drop]
    ensures IsValidMove(b1, drag, drop, piece) == IsValidMove(b2, drag, drop, piece)
  {
  }

  /** A double step from the starting rank is accepted exactly when the square
      jumped over is empty and the destination holds no piece of the pawn's colour. */
  lemma PawnDoubleStep(board: Board, drag: Square, piece: Piece)
    requires piece.kind == Pawn
    requires piece.color == White ==> 8 <= drag <= 15
    requires piece.color == Black ==> 48 <= drag <= 55
    ensures var mid := if piece.color == White then drag + 8 else drag - 8;
      var drop := if piece.color == White then drag + 16 else drag - 16;
      IsValidMove(board, drag, drop, piece) <==>
        board[mid].None? && (board[drop].None? || board[drop].value.color != piece.color)
  {
    var lo := if piece.color == White then drag else drag - 16;
    var drop := if piece.color == White then drag + 16 else drag - 16;
    forall s: Square ensures StrictlyBetween(drag, drop, s) <==> s == lo + 8 {
      BetweenTwoRanks(lo, s);
      BetweenSymmetric(lo, lo + 16, s);
    }
  }

  /** The pawn rule has no capture test: a single step straight onto an enemy
      piece is accepted. */
  lemma PawnStepsOntoEnemy(board: Board, drag: Square, piece: Piece)
    requires piece.kind == Pawn
    requires piece.color == White ==> drag + 8 < 64
    requires piece.color == Black ==> drag - 8 >= 0
    ensures var drop := if piece.color == White then drag + 8 else drag - 8;
      board[drop].Some? && board[drop].value.color != piece.color ==> IsValidMove(board, drag, drop, piece)
  {
    var lo := if piece.color == White then drag else drag - 8;
    var drop := if piece.color == White then drag + 8 else drag - 8;
    forall s: Square ensures !StrictlyBetween(drag, drop, s) {
      BetweenOneRank(lo, s);
      BetweenSymmetric(lo, lo + 8, s);
    }
  }
}
