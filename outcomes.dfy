/** Paths, the errors the cleaning script can raise, and the outcome of an operation that may raise one. */
module Outcomes {

  /** A path relative to the dataset root, one name per component. */
  type Path = seq<string>

  /** The exceptions that abort a run of the script. */
  datatype Error =
    | NotFound(path: Path)            // reading a table that does not exist
    | EmptyFile(path: Path)           // reading a table whose file has no columns
    | MissingColumn(column: string)   // a column lookup by a label the table lacks
    | DuplicateColumn(column: string) // a column lookup by a label several columns carry after renaming
    | NoRows(path: Path)              // taking the first row of an empty table

  /** Either the value an operation computes or the error that aborted it. */
  datatype Outcome<T> = Ok(value: T) | Err(error: Error)
}
