/** Shared vocabulary of the chess code: the piece kinds and colours declared in
    src/types/types.ts (and repeated in src/components/chessboard.tsx), and the
    failure-carrying wrappers the model uses where the source returns `null`,
    `undefined` or throws. */
module Types {

  /** An optional value; `None` stands for the source's `null` square. */
  datatype Option<T> = None | Some(value: T)

  /** A computed value or the error the source would raise (or the undefined
      value it would produce) instead. */
  datatype Result<T, E> = Success(value: T) | Failure(error: E)

  /** The outcome of an operation that returns nothing but may raise. */
  datatype Outcome<E> = Pass | Fail(error: E)

  /** `PieceTypes`. */
  datatype Kind = Rook | Knight | Bishop | Queen | King | Pawn

  /** `'white' | 'black'`. */
  datatype Color = White | Black
}
