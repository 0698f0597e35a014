# A verified model of the ts-v6-engine chess rules and evaluator

The repository is a small chess application with three parts:

- a drag-and-drop board component (`src/components/chessboard.tsx`) that sets up the starting position and accepts or rejects moves;
- a static evaluator (`src/backend/v6-engine/engine.ts`) that reads a board packed into a BigInt, one 4-bit nibble per square, and scores it in White's favour;
- a `Bit64` container (`src/utils/utils.ts`) holding the 64 binary digits of a BigInt in a `Uint8Array`.

This project models those three parts in Dafny and proves properties of the model.

Modules:

- `Types` (`types.dfy`): piece kinds and colours as in `src/types/types.ts`, plus `Option`, `Result` and `Outcome`.
- `Numeric` (`numeric.dfy`): powers of two and the facts about Euclidean division that BigInt shifts and masks reduce to. BigInt `x >> k` is floor division by 2^k and `x & 0xF` the non-negative remainder modulo 16, so both are exact for negative values too.
- `Chessboard` (`chessboard.dfy`): the component's helpers, with its `boardState` passed as a parameter instead of read from React state. Square `i` is on row `i / 8` and column `i % 8`.
  - `isPathClear` is a method with the source's three loops (rank, file, diagonal). It is proved equal to the predicate `PathClear`: a Knight jumps, and any other piece needs every square strictly between the two ends to be empty.
  - `isValidMove` is a function with the source's branches in the source's order. Its contract states the geometry every accepted move has.
  - `getValidMoves` and `initializeBoard` are loops, proved against what they build.
  - `HandlePieceDrop` is the board update of `handlePieceDrop`.
- `Engine` (`engine.dfy`):
  - the three position tables as maps from square to multiplier;
  - `parseBoardState`, a loop over the 64 nibbles followed by an in-place reversal, proved equal to the function `Decode`;
  - `adjustScoreForRelativePosition`;
  - `calculateTotalPieceScores`, a loop proved equal to `TotalScore` of the decoded board.
  - The engine has no encoder. The model adds a reference `Encode` and proves that it and `Decode` invert each other.
- `Utils` (`bit64.dfy`): the class `Bit64` over an `array` of bytes:
  - `setValue` stores bit `i` of the value in byte `i`;
  - `getValue` ORs every byte shifted to its position;
  - `getBit` and `setBit` report an out-of-range index as a `RangeError`;
  - a `Uint8Array` store keeps its value modulo 256.

The code does not check, and neither does the model:

- whose turn it is;
- whether a move leaves one's own King in check;
- diagonal pawn captures: a pawn only moves straight ahead.

Behaviour of the code worth knowing:

- A pawn may step straight onto an enemy piece.
- The board code holds 64 nibbles, 256 bits in all.
- The decoded board is reversed: entry `j` comes from nibble `63 - j`.
- On the component's board White starts on rows 0 and 1 and its pawns move to higher indices.

## Model

| member | source | states |
|---|---|---|
| `Chessboard.IsPathClear` | src/components/chessboard.tsx:173-226 | the answer is true exactly when the piece is a Knight or every square strictly between start and end on their common rank, file or diagonal is empty; squares on no common line count as clear |
| `Chessboard.ScanRank` | src/components/chessboard.tsx:189-197 | on a common rank, returns true exactly when no square strictly between the two columns is occupied |
| `Chessboard.ScanFile` | src/components/chessboard.tsx:198-206 | on a common file, returns true exactly when no square strictly between the two rows is occupied |
| `Chessboard.ScanDiagonal` | src/components/chessboard.tsx:207-222 | on a common diagonal, walking from start towards end, returns true exactly when no square strictly between is occupied |
| `Chessboard.BetweenIsInterior` | src/components/chessboard.tsx:189-222 | a scanned square is never the start or the end and lies strictly between their indices |
| `Chessboard.PathClearSymmetric` | src/components/chessboard.tsx:189-222 | the path test gives the same answer with start and end swapped |
| `Chessboard.PathClearIgnoresEndpoints` | src/components/chessboard.tsx:189-222 | boards that differ only on the start and end squares get the same answer |
| `Chessboard.PathClearOffLine` | src/components/chessboard.tsx:207-225 | two squares on no common rank, file or diagonal always have a clear path |
| `Chessboard.PathBlockedIff` | src/components/chessboard.tsx:189-222 | for a non-Knight, the path is blocked if and only if some square strictly between the ends is occupied |
| `Chessboard.BetweenTwoRanks` | src/components/chessboard.tsx:198-206 | the only square strictly between `d` and `d + 16` is `d + 8` |
| `Chessboard.BetweenOneRank` | src/components/chessboard.tsx:198-206 | nothing lies strictly between `d` and `d + 8` |
| `Chessboard.OwnSquareRejected` | src/components/chessboard.tsx:238-240 | a piece can never be dropped on its own square, because that holds a piece of its colour |
| `Chessboard.IsValidMove` | src/components/chessboard.tsx:229-279 | every accepted move lands on an empty or enemy square along a clear path, with the kind's geometry: Rook on a rank or file, Knight (2,1) or (1,2), Bishop on a diagonal, Queen either, King one step, White pawn +8 or +16 from 8..15, Black pawn -8 or -16 from 48..55 |
| `Chessboard.QueenIsRookOrBishop` | src/components/chessboard.tsx:266-273 | a Queen's move is accepted exactly when a Rook's or a Bishop's of its colour would be |
| `Chessboard.KnightIgnoresBlockers` | src/components/chessboard.tsx:178-180 | a Knight's move depends only on what stands on the destination |
| `Chessboard.PawnDoubleStep` | src/components/chessboard.tsx:249-265 | from its starting rank a pawn's double step is accepted if and only if the square jumped over is empty and the destination holds no piece of its colour |
| `Chessboard.PawnStepsOntoEnemy` | src/components/chessboard.tsx:249-265 | a single pawn step straight onto an enemy piece is accepted |
| `Chessboard.GetValidMoves` | src/components/chessboard.tsx:282-290 | the result is strictly increasing and holds a square if and only if `isValidMove` accepts moving there |
| `Chessboard.InitializeBoard` | src/components/chessboard.tsx:121-165 | White's back rank Rook, Knight, Bishop, Queen, King, Bishop, Knight, Rook on 0..7 with White pawns on 8..15; rows 2..5 empty; Black pawns on 48..55 and Black's back rank on 56..63; each piece carries its Unicode glyph as its label; 32 pieces in all |
| `Chessboard.SetWhitePieces` | src/components/chessboard.tsx:134-146 | squares 0..15 get White's back rank and pawns, every other square is unchanged |
| `Chessboard.SetBlackPieces` | src/components/chessboard.tsx:148-161 | squares 48..63 get Black's pawns and back rank, every other square is unchanged |
| `Chessboard.PieceCountUpdate` | src/components/chessboard.tsx:334-336 | overwriting one square changes the number of pieces by what was put minus what was removed |
| `Chessboard.HandlePieceDrop` | src/components/chessboard.tsx:321-337 | an accepted move puts the dragged piece on the destination, empties the origin, leaves every other square alone and loses one piece exactly on a capture; a drag from an empty or off-board square, or a rejected move, leaves the board unchanged |
| `Engine.PieceScore` | src/backend/v6-engine/engine.ts:15-22 | a kind's material is at most 9, and it is 0 exactly for a King |
| `Engine.PieceValue` | src/backend/v6-engine/engine.ts:74-94 | every colour and kind has a code from 1 to 12, at most 6 exactly for White |
| `Engine.Nibble` | src/backend/v6-engine/engine.ts:101-103 | a nibble read from the code is below 16 |
| `Engine.FirstUnmapped` | src/backend/v6-engine/engine.ts:99-130 | finds nothing exactly when every remaining nibble is at most 12, and otherwise the lowest nibble above 12 |
| `Engine.DecodePiece` | src/backend/v6-engine/engine.ts:105-128 | nibble 0, and only it, is an empty square; nibble n from 1 to 12 is a piece of value n, White up to 6 and Black above, carrying its kind's material |
| `Engine.Decode` | src/backend/v6-engine/engine.ts:72-133 | decoding succeeds with 64 squares exactly when every nibble is at most 12; otherwise it names the lowest nibble above 12 and its value |
| `Engine.DecodedBoard` | src/backend/v6-engine/engine.ts:99-132 | a fully mapped code decodes to 64 squares |
| `Engine.Reverse` | src/backend/v6-engine/engine.ts:132 | afterwards entry k holds what entry `length - 1 - k` held before |
| `Engine.ParseBoardState` | src/backend/v6-engine/engine.ts:72-133 | the loop with its in-place reversal computes `Decode` |
| `Engine.FirstUnmappedAt` | src/backend/v6-engine/engine.ts:99-130 | the first unmapped nibble the loop meets is the one `Decode` reports |
| `Engine.DecodeSquare` | src/backend/v6-engine/engine.ts:99-130 | square `63 - i` is empty exactly when nibble `i` is 0; nibble n in 1..6 is a White `pieceTypes[n - 1]` and 7..12 a Black `pieceTypes[n - 7]`, each with value n and its kind's material |
| `Engine.DecodePieceRoundTrip` | src/backend/v6-engine/engine.ts:112-125 | a decoded nibble stores back as the same nibble, and its value and score are those of its colour and kind |
| `Engine.CodeOfRoundTrip` | src/backend/v6-engine/engine.ts:112-125 | a square content with its colour's value and its kind's score decodes back from its nibble |
| `Engine.DecodeEncode` | src/backend/v6-engine/engine.ts:72-133 | decoding the encoding of any board of canonical pieces gives that board back |
| `Engine.EncodeDecode` | src/backend/v6-engine/engine.ts:72-133 | for any code from 0 to 2^256 - 1 that decodes, encoding the result gives the code back |
| `Engine.NibbleOfEncodeFrom` | src/backend/v6-engine/engine.ts:101 | nibble `j` of an encoded board holds the code of square `63 - j` |
| `Engine.EncodeFromNibbles` | src/backend/v6-engine/engine.ts:101 | re-encoding the nibbles of a code gives the code modulo 2^(4n) |
| `Engine.DecodeLowBits` | src/backend/v6-engine/engine.ts:101 | only the low 256 bits of the code matter: every code decodes like its remainder modulo 2^256, negative codes included |
| `Engine.ZeroCode` | src/backend/v6-engine/engine.ts:72-133 | the code 0 decodes to the empty board |
| `Engine.Multiplier` | src/backend/v6-engine/engine.ts:140-146 | a table lookup that falls back to 1 for a missing or zero entry is at least 1 |
| `Engine.AdjustScoreForRelativePosition` | src/backend/v6-engine/engine.ts:135-150 | the positional score is never below the piece's material |
| `Engine.HeavyPieceScore` | src/backend/v6-engine/engine.ts:135-150 | for pieces as decoded, a Rook scores 5 and a Queen 9 on every square |
| `Engine.MinorPieceScore` | src/backend/v6-engine/engine.ts:135-141 | for pieces as decoded, a Knight or Bishop scores 3 times its centrality entry, so at least 3 |
| `Engine.PawnScore` | src/backend/v6-engine/engine.ts:135-150 | for pieces as decoded, a pawn scores 2 or 3 on the bonus squares of its colour (White 48..55, Black 8..15, 3 from column 5 on) and 1 elsewhere |
| `Engine.KingScoresNothing` | src/backend/v6-engine/engine.ts:15-22 | a King's material is 0, so the king-safety table never changes a score |
| `Engine.SideTotal` | src/backend/v6-engine/engine.ts:155-164 | a side's running total of positional scores is never negative |
| `Engine.TotalScore` | src/backend/v6-engine/engine.ts:152-167 | White's total minus Black's lies between minus Black's total and White's total |
| `Engine.CalculateTotalPieceScores` | src/backend/v6-engine/engine.ts:152-167 | an undecodable code is reported with the lowest unmapped nibble; otherwise the result is White's positional total minus Black's over the decoded board |
| `Engine.SideTotalUpdate` | src/backend/v6-engine/engine.ts:157-164 | changing one square changes a side's running total by the difference of that square's scores |
| `Engine.TotalScoreUpdate` | src/backend/v6-engine/engine.ts:152-167 | changing one square changes the evaluation by the new content's contribution minus the old one's |
| `Engine.PlacingPiece` | src/backend/v6-engine/engine.ts:152-167 | a piece put on an empty square moves the evaluation towards its own side by its positional score, which is at least its material |
| `Engine.EmptyBoardScoresZero` | src/backend/v6-engine/engine.ts:152-167 | a board with no pieces evaluates to 0 |
| `Engine.ZeroCodeScoresZero` | src/backend/v6-engine/engine.ts:152-167 | the code 0 decodes and evaluates to 0 |
| `Utils.Bit64.constructor` | src/utils/utils.ts:4-7 | a new `Bit64`, whose value defaults to 0, has 64 bytes holding the binary digits of the value, and `getValue` returns the value modulo 2^64 |
| `Utils.Bit64.SetValue` | src/utils/utils.ts:9-13 | byte `i` becomes bit `i` of the value, so `getValue` then returns the value modulo 2^64 |
| `Utils.Bit64.GetValue` | src/utils/utils.ts:15-17 | when every byte is 0 or 1, the OR-fold is the number those digits spell, below 2^64 |
| `Utils.Bit64.GetBit` | src/utils/utils.ts:19-22 | fails with the index exactly when it is outside 0..63; otherwise returns that byte, which is bit `index` of `getValue` when every byte is 0 or 1 |
| `Utils.Bit64.SetBit` | src/utils/utils.ts:24-27 | fails with the index, changing nothing, exactly when it is outside 0..63; otherwise only that byte changes, to the value modulo 256; setting a digit 0 or 1 changes `getValue` by the difference at weight 2^index and leaves every other bit of it alone |
| `Utils.Bit` | src/utils/utils.ts:11 | `(value >> i) & 1` is a binary digit |
| `Utils.Or` | src/utils/utils.ts:16 | the BigInt OR of two non-negative values is at least each of them |
| `Utils.OrFoldCovers` | src/utils/utils.ts:16 | the OR-fold of `getValue` is at least every byte shifted to its position |
| `Utils.OrFoldOfBits` | src/utils/utils.ts:16 | on binary digits the OR-fold of `getValue` equals the positional sum, below 2^n |
| `Utils.BitSumOfBits` | src/utils/utils.ts:9-17 | reading back the digits `setValue` stores gives the value modulo 2^n |
| `Utils.BitOfBitSum` | src/utils/utils.ts:15-21 | bit `j` of the number spelled by binary digits is digit `j` |
| `Utils.BitSumUpdate` | src/utils/utils.ts:24-27 | overwriting digit `i` changes the spelled number by the difference at weight 2^i |
| `Utils.StoreBit` | src/utils/utils.ts:24-27 | storing a 0 or 1 among 64 binary digits keeps them binary, moves the number by the difference at weight 2^i and changes no other bit of it |

## Left out

- The React rendering, drag events, highlighting, `playerColor`, `useEffect` and `console.log` are UI plumbing around the modelled helpers.
- The `parseInt` of the dragged index and its `NaN` guard are not modelled. `HandlePieceDrop` takes the index as an integer; an index off the board behaves like an empty square, as `boardState[dragIndex]` being `undefined` does.
- The `value` field of `types.ts`'s `Piece` is not part of `Chessboard.Piece`: `initializeBoard` never sets it and the move rules never read it.
- The `Engine` constructor, `evaluate` and `boardScores` are empty or unused.
- Engine.Decode: a nibble of 13, 14 or 15 makes the source push a Black piece of undefined kind, value and score, and every total over it becomes `NaN`. The model instead reports the lowest such nibble as a `DecodeError`, and `CalculateTotalPieceScores` passes that error on in place of `NaN`.
- Engine.ParseBoardState: because of this error path, it does not return a board for such codes, as the source does.
- Engine.MinorPieceScore: states the Knight and Bishop score through the centrality lookup rather than as a numeric range. A bound over all 64 entries of the table is not proved, because it needs a case split per square.
- Utils.Bit64.SetBit: models `index` and `value` as integers. A fractional or `NaN` argument, which JavaScript would truncate or read as an undefined property, is not modelled.
- Utils.Bit64.GetBit: models `index` as an integer; a fractional index, which would return `undefined`, is not modelled.
- Utils.Bit64.GetValue: its value properties are stated only when every byte is 0 or 1. After `setBit` with another value the OR-fold is still computed, by the same definition, but no closed form is given for it.
- The model uses no floating point, since every score is an integer.
