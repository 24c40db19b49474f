/** Optional values, the Python exceptions the core raises, and results that carry them. */
module Wrappers {

  datatype Option<+T> = None | Some(value: T)

  /** The exceptions raised by the observation-table and bookkeeping code. */
  datatype Error =
    | ValueError            // bad token count, failed int()/float(), read_table without a file name
    | TypeError             // %-formatting of an unset number
    | RuntimeError          // unsupported argument to add_records_to_table, too many '-' in a file range
    | IOError               // missing file, no file name to write to, overwrite refused
    | KeyError(key: string) // missing dictionary entry
    | NameError(name: string) // reference to an undefined name

  /** A value, or the exception that was raised instead of producing it. */
  datatype Result<+T> = Success(value: T) | Failure(error: Error)
}
