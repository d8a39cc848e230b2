// Error kinds raised by the puzzle engine and the result wrappers used to
// model Python exceptions as values.
module Outcome {

  /** The exception classes of the engine (plus the built-in ones it lets escape). */
  datatype Error =
    | CellExcept          // puzzles/puzzle.py Cell errors
    | PuzzleExcept        // puzzles/puzzle.py Puzzle errors and their re-wraps
    | BuildError          // PuzzleBuilder failures
    | SudokuBuildError    // SudokuBuilder failures
    | SudokuErrors        // SudokuSolver / combo_reduction failures
    | UnknownTransform    // main.py transform_puzzle with an unknown transform
    | MissingKey          // a built-in KeyError from a dictionary lookup
    | OutOfFuel           // a loop the source may run forever ran past its bound
    | BadIndex            // a built-in IndexError from a list subscript

  datatype Option<T> = None | Some(value: T)

  datatype Result<T> = Ok(value: T) | Err(error: Error)
}
