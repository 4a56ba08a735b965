/** How the scripts see the files they read, and the errors reading them
    can raise. */
module Files {

  /** A text file as opened in text mode: `Missing` when the path does not
      exist, otherwise the lines that iterating over the handle yields, each
      still carrying its line terminator. */
  datatype TextFile = Missing | Present(lines: seq<string>)

  /** The exceptions the loaders let escape: `FileNotFound` for a missing
      path, `NotEnoughValues` for the `ValueError` raised when a non-blank
      ability line has no colon to split on. */
  datatype LoadError = FileNotFound | NotEnoughValues

  datatype Result<T> = Ok(value: T) | Err(error: LoadError)

  datatype Option<T> = None | Some(value: T)
}
