/** Python exceptions that the modelled code can raise, and a result type that
    carries either the value a Python call returns or the exception it raises. */
module Exceptions {

  /** The exceptions raised by the coordinator and worker code. */
  datatype PyError =
    | ZeroDivisionError               // `//` or `/` with a zero divisor
    | KeyError(key: string)           // `dict.pop` or `d[key]` on a missing key
    | FileNotFoundError(path: string) // `os.path.getsize` on a missing file
    | ValueError(literal: string)     // `int(literal)` on a string that is not an integer

  /** A value that may be missing: a dict key that is absent, a search that
      finds nothing, a string that is not an integer. */
  datatype Option<T> = None | Some(value: T)

  /** What a Python call does: returns a value or raises. */
  datatype Result<T> = Ok(value: T) | Raise(error: PyError)
}
