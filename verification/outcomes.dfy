/** Optional values, the failures an RYFS operation can end in, and results
    that carry either a value or such a failure. */
module Outcomes {

  /** Python's `None` or a value. */
  datatype Option<+T> = None | Some(value: T)

  /** Why an operation stopped early. */
  datatype Error =
    | NameFormatInvalid   // file name or extension is not 8.3
    | ImageTooLarge       // requested image is over 16 MiB
    | LabelTooLong        // directory label is over 8 characters
    | FileNotFound        // no directory entry carries the name
    | DirectoryFull       // all 30 directory entries are in use
    | StorageExhausted    // no free sector for the first segment
    | Crashed             // an exception the tool does not catch

  datatype Result<+T> = Ok(value: T) | Err(error: Error)
}
