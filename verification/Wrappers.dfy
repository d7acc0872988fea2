/** A value that may be absent, a result that may be an error, and what a sequence holds. */
module Wrappers {
  datatype Option<T> = None | Some(value: T)

  datatype Result<T> = Ok(value: T) | Err(message: string)

  ghost function Elements<T>(s: seq<T>): set<T> {
    set x | x in s
  }
}
