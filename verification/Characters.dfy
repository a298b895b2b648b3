/** Character classes that several modules share. */
module Characters {

  /** What Python's `strip` takes off a text. */
  predicate IsSpace(c: char)
  {
    || '\t' <= c <= '\r' || '\U{1C}' <= c <= ' ' || c == '\U{85}' || c == '\U{A0}' || c == '\U{1680}'
    || '\U{2000}' <= c <= '\U{200A}' || c == '\U{2028}' || c == '\U{2029}' || c == '\U{202F}' || c == '\U{205F}'
    || c == '\U{3000}'
  }

  /** `rstrip`. */
  function StripRight(s: string): (r: string)
  {
    if s != "" && IsSpace(s[|s| - 1]) then StripRight(s[..|s| - 1]) else s
  }

  /** The upper-case hexadecimal digit. */
  function HexDigit(n: nat): (c: char)
    requires n < 16
  {
    if n < 10 then ('0' as int + n) as char else ('A' as int + n - 10) as char
  }
}
