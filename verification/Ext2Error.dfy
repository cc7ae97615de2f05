/** How the file system reports a failure. */
module Ext2Error {

  datatype Error = Corrupt | NotFound | NotDirectory | NameTooLong | Full | Exists | TooLarge

  datatype Result<+T> = Ok(value: T) | Err(error: Error)
}
