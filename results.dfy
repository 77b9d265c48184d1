/** Outcome types shared by the pipeline: an optional value, and a value or
    the message of the exception the Python code would raise. */
module Results {

  datatype Option<+T> = None | Some(value: T)

  /** `Err(message)` stands for a raised exception whose `str()` is `message`. */
  datatype Result<+T> = Ok(value: T) | Err(message: string)

  /** True when `s` begins with `prefix`. */
  predicate HasPrefix(s: string, prefix: string)
  {
    |prefix| <= |s| && s[..|prefix|] == prefix
  }
}
