/** What several modules share. */
module Basics {

  datatype Option<T> = None | Some(value: T)

  /** The character that ends a C string. */
  const NUL: char := '\0'

  /** The character at `i`, or a NUL behind the end. */
  function CharAt(s: string, i: nat): char {
    if i < |s| then s[i] else NUL
  }
}
