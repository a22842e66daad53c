/** Trimming text as Rust's `str` does, on UTF-8 bytes. */
module Whitespace {
  import opened Text

  /** The last character is whitespace to Rust's `trim_end`: so many bytes of UTF-8, or none. */
  function LastSpace(s: Bytes): (n: nat)
    ensures n <= |s|
  {
    var n := |s|;
    if n >= 1 && ('\t' <= s[n - 1] <= '\r' || s[n - 1] == ' ') then 1
    else if n >= 2 && s[n - 2] == '\U{00C2}' && (s[n - 1] == '\U{0085}' || s[n - 1] == '\U{00A0}') then 2
    else if n >= 3 && IsWideSpace(s[n - 3], s[n - 2], s[n - 1]) then 3
    else 0
  }

  /** U+1680, U+2000 to U+200A, U+2028, U+2029, U+202F, U+205F and U+3000. */
  predicate IsWideSpace(a: Byte, b: Byte, c: Byte) {
    || (a == '\U{00E1}' && b == '\U{009A}' && c == '\U{0080}')
    || (a == '\U{00E2}' && b == '\U{0080}'
        && ('\U{0080}' <= c <= '\U{008A}' || c == '\U{00A8}' || c == '\U{00A9}' || c == '\U{00AF}'))
    || (a == '\U{00E2}' && b == '\U{0081}' && c == '\U{009F}')
    || (a == '\U{00E3}' && b == '\U{0080}' && c == '\U{0080}')
  }

  function TrimEnd(s: Bytes): (r: Bytes)
    ensures r <= s
  {
    if LastSpace(s) == 0 then s else TrimEnd(s[..|s| - LastSpace(s)])
  }
}
