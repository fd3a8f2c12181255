/**
 * What the two pattern decoders produce. The decoders run inside the
 * game's constructor; a Java exception escaping that constructor ends the
 * program, and is modelled here as a `Fault`.
 */
module Pattern {
  import opened Life
  import opened Grid

  datatype Option<T> = None | Some(value: T)

  /** Why decoding a pattern file stops the program. */
  datatype Fault =
    | NoFirstLine   // a `.cells` file without any line: reading its first line fails
    | BufferFull    // a `.cells` file with more live cells than the coordinate buffer holds
    | OffGrid       // a cell to turn on lies outside the grid
    | EmptyLine     // an `.rle` line without a first character
    | BadHeader     // an `.rle` header without a usable width and height

  datatype Result<T> = Ok(value: T) | Err(fault: Fault)

  /** A decoder's result as a value: the board, no board at all, or a fault. */
  datatype Parsed = Parsed(board: Board) | Absent | Failed(fault: Fault)

  /** A decoder's result as the program has it: a fresh grid, no grid, or a fault. */
  datatype Decoded = Loaded(grid: GridCanvas) | NoGrid | Crashed(fault: Fault)
}
