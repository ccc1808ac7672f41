/** Optional values and fallible results, as the scanner's Rust source uses them. */
module Options {

  datatype Option<T> = None | Some(value: T) {

    /** The wrapped value, or `default` for `None` (Rust's `unwrap_or`). */
    function GetOr(default: T): T {
      if Some? then value else default
    }
  }

  datatype Result<T, E> = Ok(value: T) | Err(error: E)
}
