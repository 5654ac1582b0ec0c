/** Small shared vocabulary: an optional value (a C pointer that may be NULL)
    and the two C string tests the analyzer relies on. */
module Base {

  /** A value that may be absent, as a `char *` may be NULL. */
  datatype Option<T> = None | Some(value: T)

  /** `strncmp(s, prefix, strlen(prefix)) == 0`, or `strstr(s, prefix) == s`:
      `s` begins with `prefix` (equality included). */
  predicate StartsWith(s: string, prefix: string)
  {
    prefix <= s
  }

  /** `needle` occurs in `s` starting at position `i`. */
  predicate OccursAt(s: string, needle: string, i: int)
  {
    0 <= i && i + |needle| <= |s| && s[i..i + |needle|] == needle
  }

  /** `strstr(s, needle) != NULL`: `needle` occurs somewhere in `s`. */
  predicate Contains(s: string, needle: string)
  {
    exists i :: 0 <= i <= |s| && OccursAt(s, needle, i)
  }
}
