/** The static evaluator of src/backend/v6-engine/engine.ts: a board code is a
    BigInt holding one 4-bit nibble per square (nibble i in bits 4i..4i+3);
    `parseBoardState` decodes it, `adjustScoreForRelativePosition` weights a
    piece's material by where it stands, and `calculateTotalPieceScores`
    returns White's weighted material minus Black's. */
module Engine {
  import opened Types
  import opened Numeric

  /** `EnginePiece`: a piece without its label, with its 1..12 board code
      (`value`) and its material (`score`). */
  datatype EnginePiece = EnginePiece(kind: Kind, color: Color, value: nat, score: nat)

  /** A decoded board: the position of each entry is the square the scorer uses. */
  type EngineBoard = seq<Option<EnginePiece>>

  /** A nibble of 13, 14 or 15 names no piece kind: the source then builds a
      piece whose kind, value and score are `undefined`, and every total it
      takes part in is `NaN`. The model reports the lowest such nibble. */
  datatype DecodeError = UnmappedNibble(nibbleIndex: nat, nibble: nat)

  // ---------------------------------------------------------------------------
  // Tables

  /** `pieceScores`. */
  function PieceScore(kind: Kind): (s: nat)
    ensures s <= 9
    ensures s == 0 <==> kind == King
  {
    match kind
    case Pawn => 1
    case Knight => 3
    case Bishop => 3
    case Rook => 5
    case Queen => 9
    case King => 0
  }

  /** `centralityMap`, for Knights and Bishops. */
  const CentralityMap: map<int, nat> := map[
    0 := 1, 1 := 1, 2 := 1, 3 := 1, 4 := 2, 5 := 2, 6 := 2, 7 := 2,
    8 := 1, 9 := 1, 10 := 1, 11 := 1, 12 := 2, 13 := 3, 14 := 3, 15 := 3,
    16 := 2, 17 := 2, 18 := 3, 19 := 4, 20 := 4, 21 := 4, 22 := 3, 23 := 3,
    24 := 2, 25 := 2, 26 := 2, 27 := 3, 28 := 4, 29 := 5, 30 := 5, 31 := 4,
    32 := 4, 33 := 5, 34 := 5, 35 := 4, 36 := 3, 37 := 4, 38 := 4, 39 := 3,
    40 := 3, 41 := 4, 42 := 3, 43 := 2, 44 := 2, 45 := 2, 46 := 1, 47 := 1,
    48 := 1, 49 := 1, 50 := 1, 51 := 1, 52 := 1, 53 := 1, 54 := 1, 55 := 1,
    56 := 1, 57 := 1, 58 := 1, 59 := 1, 60 := 1, 61 := 1, 62 := 1, 63 := 1]

  /** `kingPositionMap.black`. */
  const BlackKingMap: map<int, nat> := map[
    0 := 5, 1 := 5, 2 := 5, 3 := 5, 4 := 4, 5 := 4, 6 := 4, 7 := 4,
    8 := 3, 9 := 3, 10 := 3, 11 := 3, 12 := 3, 13 := 2, 14 := 2, 15 := 2,
    16 := 2, 17 := 2, 18 := 2, 19 := 1, 20 := 1, 21 := 1, 22 := 1, 23 := 1,
    24 := 1, 25 := 1, 26 := 1, 27 := 1, 28 := 1, 29 := 1, 30 := 1, 31 := 1,
    32 := 1, 33 := 1, 34 := 1, 35 := 1, 36 := 1, 37 := 1, 38 := 1, 39 := 1,
    40 := 1, 41 := 1, 42 := 1, 43 := 1, 44 := 1, 45 := 1, 46 := 1, 47 := 1,
    48 := 1, 49 := 1, 50 := 1, 51 := 1, 52 := 1, 53 := 1, 54 := 1, 55 := 1,
    56 := 1, 57 := 1, 58 := 1, 59 := 1, 60 := 1, 61 := 1, 62 := 1, 63 := 1]

  /** `kingPositionMap.white`; it has no entries for squares 0..7. */
  const WhiteKingMap: map<int, nat> := map[
    56 := 5, 57 := 5, 58 := 5, 59 := 5, 60 := 4, 61 := 4, 62 := 4, 63 := 4,
    48 := 3, 49 := 3, 50 := 3, 51 := 3, 52 := 3, 53 := 2, 54 := 2, 55 := 2,
    40 := 2, 41 := 2, 42 := 2, 43 := 2, 44 := 2, 45 := 1, 46 := 1, 47 := 1,
    32 := 2, 33 := 2, 34 := 2, 35 := 2, 36 := 2, 37 := 1, 38 := 1, 39 := 1,
    24 := 1, 25 := 1, 26 := 1, 27 := 1, 28 := 1, 29 := 1, 30 := 1, 31 := 1,
    16 := 1, 17 := 1, 18 := 1, 19 := 1, 20 := 1, 21 := 1, 22 := 1, 23 := 1,
    8 := 1, 9 := 1, 10 := 1, 11 := 1, 12 := 1, 13 := 1, 14 := 1, 15 := 1]

  function KingPositionMap(color: Color): map<int, nat> {
    if color == White then WhiteKingMap else BlackKingMap
  }

  /** `pawnPositionMap`: entries only on the row before promotion. */
  function PawnPositionMap(color: Color): map<int, nat> {
    if color == White then map[48 := 2, 49 := 2, 50 := 2, 51 := 2, 52 := 2, 53 := 3, 54 := 3, 55 := 3]
    else map[8 := 2, 9 := 2, 10 := 2, 11 := 2, 12 := 2, 13 := 3, 14 := 3, 15 := 3]
  }

  /** `pieceTypes`: nibble n names kind `PieceTypes[n - 1]` (White) or `PieceTypes[n - 7]` (Black). */
  const PieceTypes: seq<Kind> := [Rook, Knight, Bishop, Queen, King, Pawn]

  /** `pieceValues[color][kind]`. */
  function PieceValue(color: Color, kind: Kind): (v: nat)
    ensures 1 <= v <= 12
    ensures v <= 6 <==> color == White
  {
    var base := match kind
      case Rook => 1
      case Knight => 2
      case Bishop => 3
      case Queen => 4
      case King => 5
      case Pawn => 6;
    if color == White then base else base + 6
  }

  // ---------------------------------------------------------------------------
  // parseBoardState

  /** `(code >> BigInt(i * 4)) & 0xFn`: BigInt `>>` is floor division by a power
      of two and `& 0xF` the non-negative remainder modulo 16. */
  function Nibble(code: int, i: nat): (n: nat)
    ensures n < 16
  {
    (code / Pow2(4 * i)) % 16
  }

  /** The square content a mapped nibble stands for. */
  function DecodePiece(n: nat): (d: Option<EnginePiece>)
    requires n <= 12
    ensures d.None? <==> n == 0
    ensures d.Some? ==>
      d.value.color == (if n <= 6 then White else Black) &&
      d.value.value == n && d.value.score == PieceScore(d.value.kind)
  {
    if n == 0 then None
    else
      var color := if n <= 6 then White else Black;
      var kind := if n <= 6 then PieceTypes[n - 1] else PieceTypes[n - 7];
      Some(EnginePiece(kind, color, PieceValue(color, kind), PieceScore(kind)))
  }

  /** Every nibble from `from` up to 63 names a square content. */
  predicate MappedFrom(code: int, from: nat) {
    forall i :: from <= i < 64 ==> Nibble(code, i) <= 12
  }

  /** The lowest nibble index from `from` up to 63 holding 13, 14 or 15, if any. */
  function FirstUnmapped(code: int, from: nat): (r: Option<nat>)
    decreases 64 - from
    ensures r.None? <==> MappedFrom(code, from)
    ensures r.Some? ==>
      from <= r.value < 64 && Nibble(code, r.value) > 12 &&
      forall i :: from <= i < r.value ==> Nibble(code, i) <= 12
  {
    if from >= 64 then None
    else if Nibble(code, from) > 12 then Some(from)
    else FirstUnmapped(code, from + 1)
  }

  /** The first unmapped nibble is the one after a run of mapped ones. */
  lemma {:induction false} FirstUnmappedAt(code: int, from: nat, i: nat)
    requires from <= i < 64 && Nibble(code, i) > 12
    requires forall k :: from <= k < i ==> Nibble(code, k) <= 12
    ensures FirstUnmapped(code, from) == Some(i)
    decreases i - from
  {
    if from < i {
      FirstUnmappedAt(code, from + 1, i);
    }
  }

  /** What `parseBoardState` computes: entry j holds the decoding of nibble
      63 - j (the pushed list is reversed), or the first unmapped nibble is
      reported. */
  function Decode(code: int): (r: Result<EngineBoard, DecodeError>)
    ensures r.Success? <==> forall i :: 0 <= i < 64 ==> Nibble(code, i) <= 12
    ensures r.Success? ==> |r.value| == 64
    ensures r.Failure? ==>
      var e := r.error;
      e.nibbleIndex < 64 && e.nibble == Nibble(code, e.nibbleIndex) && e.nibble > 12 &&
      forall i :: 0 <= i < e.nibbleIndex ==> Nibble(code, i) <= 12
  {
    match FirstUnmapped(code, 0)
    case Some(i) => Failure(UnmappedNibble(i, Nibble(code, i)))
    case None => Success(DecodedBoard(code))
  }

  /** The board a fully mapped code stands for, after the reversal. */
  function DecodedBoard(code: int): (b: EngineBoard)
    requires MappedFrom(code, 0)
    ensures |b| == 64
  {
    seq(64, j requires 0 <= j < 64 => DecodePiece(Nibble(code, 63 - j)))
  }

  /** Square j of the decoded board is read from nibble 63 - j. */
  lemma DecodedBoardAt(code: int, j: nat)
    requires MappedFrom(code, 0) && j < 64
    ensures DecodedBoard(code)[j] == DecodePiece(Nibble(code, 63 - j))
  {
  }

  /** `Array.prototype.reverse`, in place. */
  method Reverse<T>(a: array<T>)
    modifies a
    ensures forall k :: 0 <= k < a.Length ==> a[k] == old(a[a.Length - 1 - k])
  {
    var n := a.Length;
    var i := 0;
    while i < n / 2
      invariant 0 <= i <= n / 2
      invariant forall k :: 0 <= k < i ==> a[k] == old(a[n - 1 - k]) && a[n - 1 - k] == old(a[k])
      invariant forall k :: i <= k < n - i ==> a[k] == old(a[k])
    {
      a[i], a[n - 1 - i] := a[n - 1 - i], a[i];
      i := i + 1;
    }
  }

  /** `parseBoardState`: decodes the 64 nibbles in order, pushing one entry per
      nibble, then reverses the list. */
  method ParseBoardState(boardStateInt: int) returns (r: Result<EngineBoard, DecodeError>)
    ensures r == Decode(boardStateInt)
  {
    var boardState := new Option<EnginePiece>[64](_ => None);
    for i := 0 to 64
      invariant forall k :: 0 <= k < i ==>
        Nibble(boardStateInt, k) <= 12 && boardState[k] == DecodePiece(Nibble(boardStateInt, k))
    {
      var pieceValue := Nibble(boardStateInt, i);
      if pieceValue == 0 {
        boardState[i] := None;
      } else {
        if pieceValue > 12 {
          FirstUnmappedAt(boardStateInt, 0, i);
          return Failure(UnmappedNibble(i, pieceValue));
        }
        var color, kind;
        if pieceValue <= 6 {
          color, kind := White, PieceTypes[pieceValue - 1];
        } else {
          color, kind := Black, PieceTypes[pieceValue - 7];
        }
        boardState[i] := Some(EnginePiece(kind, color, PieceValue(color, kind), PieceScore(kind)));
      }
    }
    assert MappedFrom(boardStateInt, 0);
    ghost var pushed := boardState[..];
    Reverse(boardState);
    forall j | 0 <= j < 64
      ensures boardState[j] == DecodedBoard(boardStateInt)[j]
    {
      assert boardState[j] == pushed[63 - j];
      DecodedBoardAt(boardStateInt, j);
    }
    assert boardState[..] == DecodedBoard(boardStateInt);
    r := Success(boardState[..]);
  }

  // ---------------------------------------------------------------------------
  // The board code, both ways

  /** A square content as `parseBoardState` builds it: its value is the
      nibble of its colour and kind, its score the material of its kind. */
  predicate Canonical(square: Option<EnginePiece>) {
    square.Some? ==>
      square.value.value == PieceValue(square.value.color, square.value.kind) &&
      square.value.score == PieceScore(square.value.kind)
  }

  /** The nibble a square content is stored as: 0 when empty. */
  function CodeOf(square: Option<EnginePiece>): (n: nat)
    ensures n <= 12
    ensures square.Some? <==> n != 0
  {
    match square
    case None => 0
    case Some(p) => PieceValue(p.color, p.kind)
  }

  /** The code whose nibble i, for i < n, holds `CodeOf(board[63 - i])`: the
      inverse of the reversal `parseBoardState` applies. */
  function EncodeFrom(board: EngineBoard, n: nat): nat
    requires |board| == 64 && n <= 64
  {
    if n == 0 then 0 else EncodeFrom(board, n - 1) + CodeOf(board[64 - n]) * Pow2(4 * (n - 1))
  }

  /** A board code for a 64-square board. */
  function Encode(board: EngineBoard): nat
    requires |board| == 64
  {
    EncodeFrom(board, 64)
  }

  /** A nibble read back from its code is the content stored. */
  lemma DecodePieceRoundTrip(n: nat)
    requires n <= 12
    ensures CodeOf(DecodePiece(n)) == n && Canonical(DecodePiece(n))
  {
  }

  /** A canonical content survives being stored and read back. */
  lemma CodeOfRoundTrip(square: Option<EnginePiece>)
    requires Canonical(square)
    ensures DecodePiece(CodeOf(square)) == square
  {
  }

  /** One more nibble multiplies the weight by 16. */
  lemma Pow2Nibble(n: nat)
    requires n >= 1
    ensures Pow2(4 * n) == Pow2(4 * (n - 1)) * 16
  {
    Pow2Add(4 * (n - 1), 4);
    assert 4 * (n - 1) + 4 == 4 * n;
    assert Pow2(4) == 16;
  }

  lemma {:induction false} EncodeFromBound(board: EngineBoard, n: nat)
    requires |board| == 64 && n <= 64
    ensures EncodeFrom(board, n) < Pow2(4 * n)
  {
    if n > 0 {
      EncodeFromBound(board, n - 1);
      NibbleBound(EncodeFrom(board, n - 1), CodeOf(board[64 - n]), n);
    }
  }

  /** A digit below 16 at nibble n - 1 on top of a smaller value stays below nibble n. */
  lemma NibbleBound(a: nat, c: nat, n: nat)
    requires n >= 1 && a < Pow2(4 * (n - 1)) && c < 16
    ensures a + c * Pow2(4 * (n - 1)) < Pow2(4 * n)
  {
    var p := Pow2(4 * (n - 1));
    Pow2Nibble(n);
    MulMono(c, 15, p);
  }

  /** A digit placed at nibble j above a smaller value is read back as nibble j. */
  lemma NibbleTop(a: nat, c: nat, j: nat)
    requires a < Pow2(4 * j) && c < 16
    ensures Nibble(a + c * Pow2(4 * j), j) == c
  {
    DivModUnique(a + c * Pow2(4 * j), Pow2(4 * j), c, a);
  }

  /** Adding a multiple of the weight of nibble j + m, with m >= 1, leaves nibble j alone. */
  lemma NibbleAbove(a: nat, c: nat, j: nat, m: nat)
    requires m >= 1
    ensures Nibble(a + c * Pow2(4 * (j + m)), j) == Nibble(a, j)
  {
    var pj, pm, pm1 := Pow2(4 * j), Pow2(4 * m), Pow2(4 * (m - 1));
    assert Pow2(4 * (j + m)) == pj * pm by {
      Pow2Add(4 * j, 4 * m);
      assert 4 * j + 4 * m == 4 * (j + m);
    }
    assert c * (pj * pm) == (c * pm) * pj by {
      MulAssoc(c, pm, pj);
    }
    DivAddMul(c * pm, a, pj);
    assert c * pm == (c * pm1) * 16 by {
      Pow2Nibble(m);
      MulAssoc(c, pm1, 16);
    }
    DivAddMul(c * pm1, a / pj, 16);
  }

  /** Nibble j of the code holds the content of square 63 - j. */
  lemma {:induction false} NibbleOfEncodeFrom(board: EngineBoard, n: nat, j: nat)
    requires |board| == 64 && j < n <= 64
    ensures Nibble(EncodeFrom(board, n), j) == CodeOf(board[63 - j])
  {
    var a, c := EncodeFrom(board, n - 1), CodeOf(board[64 - n]);
    if j == n - 1 {
      EncodeFromBound(board, n - 1);
      NibbleTop(a, c, j);
    } else {
      NibbleAbove(a, c, j, n - 1 - j);
      NibbleOfEncodeFrom(board, n - 1, j);
    }
  }

  /** A code is the encoding of its nibbles, up to the bits above nibble n. */
  lemma {:induction false} EncodeFromNibbles(board: EngineBoard, code: int, n: nat)
    requires |board| == 64 && n <= 64
    requires forall i :: 0 <= i < n ==> CodeOf(board[63 - i]) == Nibble(code, i)
    ensures EncodeFrom(board, n) == code % Pow2(4 * n)
  {
    if n > 0 {
      EncodeFromNibbles(board, code, n - 1);
      var p := Pow2(4 * (n - 1));
      assert CodeOf(board[63 - (n - 1)]) == Nibble(code, n - 1);
      Pow2Nibble(n);
      ModMulStep(code, p, 16);
    }
  }

  /** Decoding an encoded board gives the board back. */
  lemma DecodeEncode(board: EngineBoard)
    requires |board| == 64
    requires forall j :: 0 <= j < 64 ==> Canonical(board[j])
    ensures Decode(Encode(board)) == Success(board)
  {
    var code := Encode(board);
    forall i | 0 <= i < 64
      ensures Nibble(code, i) == CodeOf(board[63 - i])
    {
      NibbleOfEncodeFrom(board, 64, i);
    }
    assert MappedFrom(code, 0);
    forall j | 0 <= j < 64
      ensures DecodedBoard(code)[j] == board[j]
    {
      assert Nibble(code, 63 - j) == CodeOf(board[j]);
      CodeOfRoundTrip(board[j]);
    }
    assert DecodedBoard(code) == board;
  }

  /** Encoding a decoded board gives back the code it came from, when that
      code is one of the 2^256 that have no bits above nibble 63. */
  lemma EncodeDecode(code: int)
    requires 0 <= code < Pow2(256)
    requires Decode(code).Success?
    ensures Encode(Decode(code).value) == code
  {
    var board := Decode(code).value;
    assert board == DecodedBoard(code);
    forall i | 0 <= i < 64
      ensures CodeOf(board[63 - i]) == Nibble(code, i)
    {
      DecodedBoardAt(code, 63 - i);
      DecodePieceRoundTrip(Nibble(code, i));
    }
    EncodeFromNibbles(board, code, 64);
    DivModUnique(code, Pow2(256), 0, code);
  }

  /** Every square of a decoded board is what its nibble names. */
  lemma DecodeSquare(code: int, i: nat)
    requires i < 64 && Decode(code).Success?
    ensures
      var square, n := Decode(code).value[63 - i], Nibble(code, i);
      (square.None? <==> n == 0) &&
      (1 <= n <= 6 ==> square == Some(EnginePiece(PieceTypes[n - 1], White, n, PieceScore(PieceTypes[n - 1])))) &&
      (7 <= n ==> square == Some(EnginePiece(PieceTypes[n - 7], Black, n, PieceScore(PieceTypes[n - 7]))))
  {
    DecodePieceRoundTrip(Nibble(code, i));
  }

  lemma {:induction false} FirstUnmappedSame(a: int, b: int, from: nat)
    requires forall i :: 0 <= i < 64 ==> Nibble(a, i) == Nibble(b, i)
    ensures FirstUnmapped(a, from) == FirstUnmapped(b, from)
    decreases 64 - from
  {
    if from < 64 {
      FirstUnmappedSame(a, b, from + 1);
    }
  }

  /** Only the low 256 bits of a code matter: wider codes, and negative ones
      in their two's-complement reading, decode like their remainder. */
  lemma DecodeLowBits(code: int)
    ensures Decode(code) == Decode(code % Pow2(256))
  {
    var low := code % Pow2(256);
    forall i | 0 <= i < 64
      ensures Nibble(code, i) == Nibble(low, i)
    {
      NibbleOfMod(code, 4 * i, 256);
    }
    FirstUnmappedSame(code, low, 0);
    if Decode(code).Success? {
      assert DecodedBoard(code) == DecodedBoard(low);
    }
  }

  // ---------------------------------------------------------------------------
  // adjustScoreForRelativePosition and calculateTotalPieceScores

  /** `table[index] || 1`: a missing entry (and a zero one) counts as 1. */
  function Multiplier(table: map<int, nat>, index: int): (m: nat)
    ensures m >= 1
  {
    if index in table && table[index] != 0 then table[index] else 1
  }

  /** `adjustScoreForRelativePosition`: material times the positional
      multiplier of the piece's kind, which is never below one. */
  function AdjustScoreForRelativePosition(index: int, piece: EnginePiece): (r: int)
    ensures r >= piece.score
  {
    var positionMultiplier := PositionMultiplier(piece.kind, piece.color, index);
    MulMono(1, positionMultiplier, piece.score);
    piece.score * positionMultiplier
  }

  /** The table a kind is weighted by: centrality for knights and bishops, the
      side's king and pawn tables, and 1 for rooks and queens. */
  function PositionMultiplier(kind: Kind, color: Color, index: int): (m: nat)
    ensures m >= 1
  {
    if kind == Knight || kind == Bishop then Multiplier(CentralityMap, index)
    else if kind == King then Multiplier(KingPositionMap(color), index)
    else if kind == Pawn then Multiplier(PawnPositionMap(color), index)
    else 1
  }

  /** The weighted material of the pieces of `color` among the first `n` entries. */
  function SideTotal(board: EngineBoard, color: Color, n: nat): (total: int)
    requires n <= |board|
    ensures total >= 0
  {
    if n == 0 then 0
    else SideTotal(board, color, n - 1) + SquareScore(board[n - 1], color, n - 1)
  }

  /** What square `index` adds to the total of `color`. */
  function SquareScore(square: Option<EnginePiece>, color: Color, index: int): int {
    match square
    case Some(p) => if p.color == color then AdjustScoreForRelativePosition(index, p) else 0
    case None => 0
  }

  /** The evaluation of a decoded board, White-positive. */
  function TotalScore(board: EngineBoard): (score: int)
    ensures -SideTotal(board, Black, |board|) <= score <= SideTotal(board, White, |board|)
  {
    SideTotal(board, White, |board|) - SideTotal(board, Black, |board|)
  }

  /** What square `index` adds to the evaluation: positive for White, negative for Black. */
  function Contribution(square: Option<EnginePiece>, index: int): int {
    SquareScore(square, White, index) - SquareScore(square, Black, index)
  }

  /** `calculateTotalPieceScores`: accumulates both sides over the decoded board
      and returns White's total minus Black's; an unmapped nibble (a `NaN` total
      in the source) is reported instead. */
  method CalculateTotalPieceScores(boardStateInt: int) returns (r: Result<int, DecodeError>)
    ensures Decode(boardStateInt).Failure? ==> r == Failure(Decode(boardStateInt).error)
    ensures Decode(boardStateInt).Success? ==> r == Success(TotalScore(Decode(boardStateInt).value))
  {
    var parsed := ParseBoardState(boardStateInt);
    if parsed.Failure? {
      return Failure(parsed.error);
    }
    var parsedState := parsed.value;
    var totalScoreBlack := 0;
    var totalScoreWhite := 0;
    for i := 0 to |parsedState|
      invariant totalScoreBlack == SideTotal(parsedState, Black, i)
      invariant totalScoreWhite == SideTotal(parsedState, White, i)
    {
      var piece := parsedState[i];
      if piece.None? {
        continue;
      }
      if piece.value.color == Black {
        totalScoreBlack := totalScoreBlack + AdjustScoreForRelativePosition(i, piece.value);
      }
      if piece.value.color == White {
        totalScoreWhite := totalScoreWhite + AdjustScoreForRelativePosition(i, piece.value);
      }
    }
    return Success(totalScoreWhite - totalScoreBlack);
  }

  /** A King's material is 0, so the king-safety table never changes the score. */
  lemma KingScoresNothing(index: int, piece: EnginePiece)
    requires Canonical(Some(piece)) && piece.kind == King
    ensures AdjustScoreForRelativePosition(index, piece) == 0
  {
  }

  /** Rooks and Queens get no positional multiplier. */
  lemma HeavyPieceScore(index: int, piece: EnginePiece)
    requires Canonical(Some(piece)) && (piece.kind == Rook || piece.kind == Queen)
    ensures AdjustScoreForRelativePosition(index, piece) == if piece.kind == Rook then 5 else 9
  {
  }

  /** Knights and Bishops score 3 times their centrality entry. */
  lemma MinorPieceScore(index: int, piece: EnginePiece)
    requires Canonical(Some(piece)) && (piece.kind == Knight || piece.kind == Bishop)
    ensures AdjustScoreForRelativePosition(index, piece) == 3 * Multiplier(CentralityMap, index)
    ensures AdjustScoreForRelativePosition(index, piece) >= 3
  {
  }

  /** A pawn scores 2 or 3 on the bonus squares of its colour, 3 from column 5 on, and 1 elsewhere. */
  lemma PawnScore(index: int, piece: EnginePiece)
    requires Canonical(Some(piece)) && piece.kind == Pawn
    ensures AdjustScoreForRelativePosition(index, piece) ==
      if (piece.color == White && 48 <= index < 56) || (piece.color == Black && 8 <= index < 16)
      then (if index % 8 < 5 then 2 else 3) else 1
  {
  }

  /** Changing one square changes a side's total by the difference at that square. */
  lemma {:induction false} SideTotalUpdate(board: EngineBoard, color: Color, n: nat, i: nat, x: Option<EnginePiece>)
    requires n <= |board| && i < |board|
    ensures SideTotal(board[i := x], color, n) ==
      SideTotal(board, color, n) + (if i < n then SquareScore(x, color, i) - SquareScore(board[i], color, i) else 0)
  {
    if n > 0 {
      SideTotalUpdate(board, color, n - 1, i, x);
    }
  }

  /** Changing one square changes the evaluation by the difference of the two contributions. */
  lemma TotalScoreUpdate(board: EngineBoard, i: nat, x: Option<EnginePiece>)
    requires i < |board|
    ensures TotalScore(board[i := x]) == TotalScore(board) + Contribution(x, i) - Contribution(board[i], i)
  {
    SideTotalUpdate(board, White, |board|, i, x);
    SideTotalUpdate(board, Black, |board|, i, x);
  }

  /** Putting a piece on an empty square moves the evaluation towards its side
      by at least the piece's material. */
  lemma PlacingPiece(board: EngineBoard, i: nat, piece: EnginePiece)
    requires i < |board| && board[i].None?
    ensures var d := TotalScore(board[i := Some(piece)]) - TotalScore(board);
      d == (if piece.color == White then AdjustScoreForRelativePosition(i, piece)
            else -AdjustScoreForRelativePosition(i, piece)) &&
      (piece.color == White ==> d >= piece.score) && (piece.color == Black ==> d + piece.score <= 0)
  {
    TotalScoreUpdate(board, i, Some(piece));
  }

  lemma {:induction false} SideTotalEmpty(board: EngineBoard, color: Color, n: nat)
    requires n <= |board| && forall j :: 0 <= j < |board| ==> board[j].None?
    ensures SideTotal(board, color, n) == 0
  {
    if n > 0 {
      SideTotalEmpty(board, color, n - 1);
    }
  }

  /** A board with no pieces evaluates to 0. */
  lemma EmptyBoardScoresZero(board: EngineBoard)
    requires forall j :: 0 <= j < |board| ==> board[j].None?
    ensures TotalScore(board) == 0
  {
    SideTotalEmpty(board, White, |board|);
    SideTotalEmpty(board, Black, |board|);
  }

  /** The code 0 is the empty board. */
  lemma ZeroCode()
    ensures Decode(0) == Success(seq(64, _ => None))
  {
    forall i | 0 <= i < 64
      ensures Nibble(0, i) == 0
    {
    }
    assert MappedFrom(0, 0);
    assert DecodedBoard(0) == seq(64, _ => None);
  }

  /** The code 0 evaluates to 0. */
  lemma ZeroCodeScoresZero()
    ensures Decode(0).Success? && TotalScore(Decode(0).value) == 0
  {
    ZeroCode();
    EmptyBoardScoresZero(Decode(0).value);
  }
}
