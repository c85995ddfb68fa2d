/** Shared wrappers: an optional value, and the outcome of resolving one mod. */
module Base {

  datatype Option<+T> = None | Some(value: T)

  /** The two ways a lookup throws in generate-mods.ts: the string "unknown mod"
      once the version fallback is exhausted, and the TypeError raised when the
      matched Modrinth version lists no file, so that `files[0].url` reads a
      property of `undefined`. */
  datatype ModError = UnknownMod | NoFileInVersion

  datatype Result<+T> = Ok(value: T) | Err(error: ModError)
}
