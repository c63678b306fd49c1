/**
 * Failure-carrying results shared by the Huffman model. Every exception the
 * original program can raise on the modelled paths is one `Error` value.
 */
module Results {

  /** A value that may be absent, like a Python reference that may be `None`. */
  datatype Option<+T> = None | Some(value: T)

  /** The failures of the modelled operations. */
  datatype Error =
    /** `pop(0)` on an empty ordered list. */
    | EmptyCollection
    /** `int()` rejected a header token (a `ValueError`). */
    | MalformedNumber
    /** a header carries a symbol without its frequency (an `IndexError`). */
    | OddTokenCount
    /** a header names a symbol outside 0..255 (an `IndexError`). */
    | SymbolOutOfRange
    /** the bit stream ended before every symbol was decoded. */
    | TruncatedStream
    /** a decode step was asked of an absent tree (an `AttributeError` on `None`). */
    | NoTree

  /** Either the computed value or the failure that stopped the computation. */
  datatype Result<+T> = Success(value: T) | Failure(error: Error)
}
