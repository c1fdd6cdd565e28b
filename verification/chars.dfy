/** Character classes used by the Validator grammars.

    Input strings are sequences of Unicode scalar values (Dafny's `char`), which
    is how `java.util.regex` reads a `String`: a surrogate pair counts as one
    character, both in a character class and in a bounded repetition. The
    classes below follow Java's default mode (no UNICODE_CHARACTER_CLASS, no
    UNICODE_CASE), so `\w`, `\d` and `\s` are ASCII-only. */
module Chars {

  /** Every element of `s` satisfies `p`. */
  predicate All(s: string, p: char -> bool) {
    forall i | 0 <= i < |s| :: p(s[i])
  }

  /** A bounded repetition `[class]{lo,hi}`: lo to hi characters of the class. */
  predicate Repeats(t: string, p: char -> bool, lo: int, hi: int) {
    lo <= |t| <= hi && All(t, p)
  }

  predicate IsAsciiUpper(c: char) { 'A' <= c <= 'Z' }
  predicate IsAsciiLower(c: char) { 'a' <= c <= 'z' }
  predicate IsAsciiLetter(c: char) { IsAsciiUpper(c) || IsAsciiLower(c) }

  /** `\d` and `[0-9]` */
  predicate IsAsciiDigit(c: char) { '0' <= c <= '9' }
  predicate IsAsciiAlnum(c: char) { IsAsciiLetter(c) || IsAsciiDigit(c) }

  /** `\w` in Java's default mode: `[a-zA-Z_0-9]` */
  predicate IsWordChar(c: char) { IsAsciiAlnum(c) || c == '_' }

  /** `[a-fA-F0-9]` */
  predicate IsHexDigit(c: char) { IsAsciiDigit(c) || 'a' <= c <= 'f' || 'A' <= c <= 'F' }

  /** `\s` in Java's default mode: space, tab, newline, vertical tab, form feed, carriage return */
  predicate IsRegexSpace(c: char) {
    c == ' ' || c == '\t' || c == '\n' || c == '\U{0B}' || c == '\U{0C}' || c == '\r'
  }

  /** The characters `.` does not match when the pattern has no DOTALL or UNIX_LINES flag */
  predicate IsLineTerminator(c: char) {
    c == '\n' || c == '\r' || c == '\U{85}' || c == '\U{2028}' || c == '\U{2029}'
  }

  /** ASCII-only lower-casing, the folding `(?i)` applies without UNICODE_CASE. */
  function ToLowerAscii(c: char): (r: char)
    ensures !IsAsciiUpper(r)
    ensures IsAsciiLetter(r) <==> IsAsciiLetter(c)
    ensures r != c ==> IsAsciiUpper(c) && IsAsciiLower(r)
  {
    if IsAsciiUpper(c) then (c as int + 32) as char else c
  }

  predicate InRange(n: int, lo: int, hi: int) { lo <= n <= hi }

  /** The seventeen code point ranges of the UCS_CHAR class, in the order the
      Validator lists them: the BMP ranges, then planes 1 to D up to xFFFD, then
      U+E1000 to U+EFFFD. */
  predicate InUcsRanges(n: int) {
    || InRange(n, 0xA0, 0xD7FF)
    || InRange(n, 0xF900, 0xFDCF)
    || InRange(n, 0xFDF0, 0xFFEF)
    || InRange(n, 0x10000, 0x1FFFD)
    || InRange(n, 0x20000, 0x2FFFD)
    || InRange(n, 0x30000, 0x3FFFD)
    || InRange(n, 0x40000, 0x4FFFD)
    || InRange(n, 0x50000, 0x5FFFD)
    || InRange(n, 0x60000, 0x6FFFD)
    || InRange(n, 0x70000, 0x7FFFD)
    || InRange(n, 0x80000, 0x8FFFD)
    || InRange(n, 0x90000, 0x9FFFD)
    || InRange(n, 0xA0000, 0xAFFFD)
    || InRange(n, 0xB0000, 0xBFFFD)
    || InRange(n, 0xC0000, 0xCFFFD)
    || InRange(n, 0xD0000, 0xDFFFD)
    || InRange(n, 0xE1000, 0xEFFFD)
  }

  /** The space characters subtracted from the ranges by the class intersection. */
  predicate IsExcludedSpace(n: int) {
    n == 0xA0 || InRange(n, 0x2000, 0x200A) || n == 0x2028 || n == 0x2029 || n == 0x202F || n == 0x3000
  }

  /** UCS_CHAR: the `ucschar` production of section 2.2 of RFC 3987 minus the
      listed space characters. */
  predicate IsUcsChar(c: char) {
    InUcsRanges(c as int) && !IsExcludedSpace(c as int)
  }

  /** LABEL_CHAR: ASCII letters and digits plus UCS_CHAR. */
  predicate IsLabelChar(c: char) { IsAsciiAlnum(c) || IsUcsChar(c) }

  /** TLD_CHAR: ASCII letters plus UCS_CHAR (no digits). */
  predicate IsTldChar(c: char) { IsAsciiLetter(c) || IsUcsChar(c) }

  /** Every UCS_CHAR lies above the ASCII and Latin-1 control ranges, so no
      punctuation the grammars use as a delimiter is one, and none is a `\s`
      space or a line terminator. */
  lemma UcsCharIsNotAscii(c: char)
    requires IsUcsChar(c)
    ensures c as int >= 0xA1
    ensures !IsRegexSpace(c) && !IsLineTerminator(c)
  {
  }

  /** The subtraction misses some Unicode space separators: U+1680 (OGHAM
      SPACE MARK) and U+205F (MEDIUM MATHEMATICAL SPACE) are UCS characters,
      and so label characters. */
  lemma UcsCharKeepsSomeSpaces()
    ensures IsUcsChar('\U{1680}') && IsUcsChar('\U{205F}')
    ensures IsLabelChar('\U{1680}') && IsLabelChar('\U{205F}')
  {
  }

  /** The listed ranges are exactly the code points of planes 0 to D that are
      not surrogates, not the last two code points of a plane and not in the
      gaps U+0000-009F, U+D800-F8FF, U+FDD0-FDEF and U+FFF0-FFFF, together with
      U+E1000-EFFFD of plane E. */
  lemma UcsRangesByPlane(n: int)
    ensures InUcsRanges(n) <==>
      || InRange(n, 0xA0, 0xD7FF)
      || InRange(n, 0xF900, 0xFDCF)
      || InRange(n, 0xFDF0, 0xFFEF)
      || (InRange(n, 0x10000, 0xDFFFD) && n % 0x10000 <= 0xFFFD)
      || InRange(n, 0xE1000, 0xEFFFD)
  {
    if InRange(n, 0x10000, 0xDFFFD) {
      var plane := n / 0x10000;
      assert 1 <= plane <= 13;
      assert n == plane * 0x10000 + n % 0x10000;
    }
  }

  /** Edge cases of the class: the first plane-E code points, the two plane
      noncharacters and the excluded spaces are outside it, while the first
      non-space code points of each range are inside. */
  lemma UcsCharEdges()
    ensures !IsUcsChar('\U{A0}') && IsUcsChar('\U{A1}')
    ensures !IsUcsChar('\U{2000}') && !IsUcsChar('\U{200A}') && IsUcsChar('\U{200B}')
    ensures !IsUcsChar('\U{3000}') && IsUcsChar('\U{3001}')
    ensures !IsUcsChar('\U{1FFFE}') && !IsUcsChar('\U{1FFFF}') && IsUcsChar('\U{1FFFD}')
    ensures !IsUcsChar('\U{E0000}') && !IsUcsChar('\U{E0FFF}') && IsUcsChar('\U{E1000}')
    ensures forall n | 0xE0000 <= n <= 0xE0FFF :: !InUcsRanges(n)
    ensures !IsUcsChar('\U{FDD0}') && !IsUcsChar('\U{FFFD}')
  {
  }

  /** The number of octets of the UTF-8 encoding of a character. */
  function Utf8Width(c: char): int {
    if c as int < 0x80 then 1 else if c as int < 0x800 then 2 else if c as int < 0x10000 then 3 else 4
  }

  /** The number of octets of the UTF-8 encoding of a string. */
  function Utf8Length(s: string): int {
    if |s| == 0 then 0 else Utf8Width(s[0]) + Utf8Length(s[1..])
  }

  lemma {:induction false} Utf8LengthBound(s: string)
    ensures |s| <= Utf8Length(s) <= 4 * |s|
  {
    if |s| > 0 {
      Utf8LengthBound(s[1..]);
    }
  }

  lemma {:induction false} Utf8LengthOfRun(c: char, n: nat)
    ensures Utf8Length(seq(n, _ => c)) == n * Utf8Width(c)
  {
    if n > 0 {
      var s := seq(n, _ => c);
      assert s[1..] == seq(n - 1, _ => c);
      Utf8LengthOfRun(c, n - 1);
    }
  }

  lemma {:induction false} Utf8LengthConcat(a: string, b: string)
    ensures Utf8Length(a + b) == Utf8Length(a) + Utf8Length(b)
  {
    if |a| > 0 {
      assert (a + b)[0] == a[0] && (a + b)[1..] == a[1..] + b;
      Utf8LengthConcat(a[1..], b);
    } else {
      assert a + b == b;
    }
  }
}
