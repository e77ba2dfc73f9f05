/** The optional and fallible values used throughout the model. */
module Wrappers {

  /** A value that may be absent. */
  datatype Option<+T> = None | Some(value: T)

  /** The outcome of a loader step: a value, or the exception the step raises. */
  datatype Result<+T, +E> = Ok(value: T) | Err(error: E)
}

/** The exceptions the loaders of camelsus.py raise, one constructor per raise site. */
module Errors {

  datatype Error =
    | AttributeFolderNotFound          // RuntimeError: 'camels_attributes_v2.0' is absent
    | NoObjectsToConcatenate           // ValueError from concatenating an empty list of tables
    | ColumnNotFound(column: string)   // KeyError from selecting or dropping an absent column
    | MissingStaticAttributes          // ValueError: a requested basin has no attribute row
    | ForcingFolderNotFound            // OSError: the forcing product directory is absent
    | NoFileForBasin(basin: string)    // FileNotFoundError: the file search matched nothing
    | InvalidInteger(text: string)     // ValueError from int() on the area header line
    | InvalidDate(text: string)        // ValueError from the %Y/%m/%d date conversion
}
