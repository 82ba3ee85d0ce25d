/** The ways a block can be rejected, one per error message of `src/block.rs`, and the one way in which
    decoding it leaves what the language defines: a write behind the end of the output vector. */
module Errors {
  datatype BlockError =
    | CrcTruncated
    | RandomisedFlagTruncated
    | RandomisedUnsupported
    | OrigPtrTruncated
    | SymbolRangeTruncated
    | SymbolBitmapTruncated
    | NoSymbols
    | GroupsTruncated
    | BadGroups
    | SelectorsUsedTruncated
    | TooManySelectors
    | SelectorBitTruncated
    | SelectorTooLarge
    | StartLengthTruncated
    | LengthOutOfRange
    | AdjustBit1Truncated
    | AdjustBit2Truncated
    | InvalidTree
    | BitstreamTruncated
    | RepeatTooLarge
    | ExceedsBlock
    | OutOfSelectors
    | SelectorOutOfRange
    | OrigPtrOutOfBounds
    | WriteBehindVector
}
