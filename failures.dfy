/** Optional values and the exceptions the renamer raises, named after their Python classes. */
module Failures {

  datatype Option<+T> = None | Some(value: T)

  /** A path, as the sequence of names from the root of the file tree. */
  type Path = seq<string>

  datatype Error =
    /** A rule argument holds a non-printable or forbidden character; carries that argument. */
    | ValueError(argument: string)
    /** One half of a rule pair was given without the other; carries the missing one's name. */
    | TypeError(missing: string)
    /** The root of the walk is not a directory. */
    | NotADirectoryError(path: Path)
    /** A directory listed neither a file nor a subdirectory. */
    | FileNotFoundError(path: Path)
    /** A file was to be replaced onto a directory of the same name. */
    | IsADirectoryError(path: Path)

  datatype Result<+T> = Ok(value: T) | Err(error: Error)
}
