/** NUL-terminated strings: the characters before the terminator. */
module CStrings {
  predicate NoNul(s: string) {
    '\0' !in s
  }

  /** str[i], where the terminator follows the last character. */
  function At(s: string, i: nat): char {
    if i < |s| then s[i] else '\0'
  }
}
