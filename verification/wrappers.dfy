/** Option and Result: the nullable cell and the raised-exception path of the
    pipeline's scripts. */
module Wrappers {

  datatype Option<+T> = None | Some(value: T)

  /** The error kinds the scripts raise on malformed input. */
  datatype Error =
    | MissingColumn(column: string)   // pandas KeyError on a column selection
    | MissingKey(key: string)         // KeyError on a YAML mapping

  datatype Result<+R> = Success(value: R) | Failure(error: Error)
}
