/** Character classes over storage units: the ASCII classes the case and
    classification operations test with regular expressions, and the host's
    whitespace class `\s` used by default strip and split. */
module Chars {
  import opened Base

  const TAB: Unit := 9
  const LF: Unit := 10
  const CR: Unit := 13
  const SPACE: Unit := 32
  const DQUOTE: Unit := 34
  const PERCENT: Unit := 37
  const SQUOTE: Unit := 39
  const PLUS: Unit := 43
  const MINUS: Unit := 45
  const ZERO: Unit := 48
  const BACKSLASH: Unit := 92

  predicate IsUpper(u: Unit) { 'A' as int <= u <= 'Z' as int }
  predicate IsLower(u: Unit) { 'a' as int <= u <= 'z' as int }
  /** `[a-zA-Z]`: the only cased characters of the ASCII-only case logic. */
  predicate IsLetter(u: Unit) { IsUpper(u) || IsLower(u) }
  /** `\d` and `[0-9]` (the same class in JS). */
  predicate IsDigit(u: Unit) { ZERO <= u <= '9' as int }
  predicate IsAlnum(u: Unit) { IsLetter(u) || IsDigit(u) }

  function ToUpper(u: Unit): (r: Unit)
  {
    if IsLower(u) then u - 32 else u
  }

  function ToLower(u: Unit): (r: Unit)
  {
    if IsUpper(u) then u + 32 else u
  }

  /** ECMAScript `\s`: the WhiteSpace and LineTerminator code units. */
  predicate IsSpace(u: Unit) {
    u == TAB || u == LF || u == 0x0B || u == 0x0C || u == CR || u == SPACE ||
    u == 0xA0 || u == 0x1680 || (0x2000 <= u <= 0x200A) ||
    u == 0x2028 || u == 0x2029 || u == 0x202F || u == 0x205F ||
    u == 0x3000 || u == 0xFEFF
  }

  /** A line break for `splitlines`, `expandtabs` and repr. */
  predicate IsLineBreak(u: Unit) { u == LF || u == CR }
}
