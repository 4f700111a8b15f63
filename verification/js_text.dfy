/**
 Character-level behaviour of JavaScript that the contact form's email check
 relies on: the `\s` class and the line terminators that `.` refuses in a
 regular expression without the `s` flag, and `String.prototype.toLowerCase`.

 Dafny's `char` is a Unicode scalar value while a JavaScript string is a
 sequence of UTF-16 code units. None of the classes below contains a surrogate
 code unit or a character outside the Basic Multilingual Plane, so every
 character of either kind falls on the same side of every class, and reading a
 string as scalar values does not change what the email expression accepts.
 */
module JsText {

  /** ECMAScript LineTerminator: LF, CR, LINE SEPARATOR, PARAGRAPH SEPARATOR.
      These are exactly the characters that `.` does not match. */
  predicate IsLineTerminator(c: char) {
    c == '\n' || c == '\r' || c == '\U{2028}' || c == '\U{2029}'
  }

  /** ECMAScript WhiteSpace: TAB, VT, FF, ZWNBSP and the Unicode `Zs` category
      (SPACE, NO-BREAK SPACE, OGHAM SPACE MARK, U+2000..U+200A, NARROW NO-BREAK
      SPACE, MEDIUM MATHEMATICAL SPACE, IDEOGRAPHIC SPACE; U+180E has not been
      in `Zs` since Unicode 6.3). */
  predicate IsWhiteSpace(c: char) {
    || c == '\t' || c == '\U{000B}' || c == '\U{000C}' || c == '\U{FEFF}'
    || c == ' ' || c == '\U{00A0}' || c == '\U{1680}'
    || ('\U{2000}' <= c <= '\U{200A}')
    || c == '\U{202F}' || c == '\U{205F}' || c == '\U{3000}'
  }

  /** The regular-expression class `\s`: WhiteSpace or LineTerminator. */
  predicate IsJsWhitespace(c: char) {
    IsWhiteSpace(c) || IsLineTerminator(c)
  }

  predicate IsAsciiUpper(c: char) {
    'A' <= c <= 'Z'
  }

  predicate IsAsciiLower(c: char) {
    'a' <= c <= 'z'
  }

  predicate IsAsciiLetter(c: char) {
    IsAsciiUpper(c) || IsAsciiLower(c)
  }

  predicate IsAsciiDigit(c: char) {
    '0' <= c <= '9'
  }

  /** `toLowerCase` on one character, restricted to ASCII: `A`..`Z` become
      `a`..`z`, every other character is left as it is. */
  function LowerChar(c: char): (d: char)
    ensures !IsAsciiUpper(d)
    ensures IsAsciiUpper(c) ==> IsAsciiLower(d) && d as int == c as int + 32
    ensures !IsAsciiUpper(c) ==> d == c
  {
    if IsAsciiUpper(c) then (c as int + 32) as char else c
  }

  /** `String(s).toLowerCase()`, character by character (ASCII case only). */
  function Lower(s: string): (t: string)
    ensures |t| == |s|
    ensures forall i :: 0 <= i < |s| ==> t[i] == LowerChar(s[i])
  {
    seq(|s|, i requires 0 <= i < |s| => LowerChar(s[i]))
  }

  /** Lowercasing leaves no upper-case letter, keeps every character that is
      not an upper-case letter, and so a string without upper-case letters is
      its own lower case. */
  lemma LowerFixesLowered(s: string)
    ensures (forall i :: 0 <= i < |s| ==> !IsAsciiUpper(s[i])) <==> Lower(s) == s
  {
    if Lower(s) == s {
      forall i | 0 <= i < |s| ensures !IsAsciiUpper(s[i]) {
        assert s[i] == Lower(s)[i];
      }
    }
  }

  /** Lowercasing twice is lowercasing once. */
  lemma LowerIdempotent(s: string)
    ensures Lower(Lower(s)) == Lower(s)
  {
    LowerFixesLowered(Lower(s));
  }

  /** Lowercasing commutes with concatenation. */
  lemma LowerAppend(s: string, t: string)
    ensures Lower(s + t) == Lower(s) + Lower(t)
  {
  }

  /** Lowercasing moves no character across any class the email expression
      uses, other than turning upper-case letters into lower-case ones. */
  lemma LowerKeepsClasses(c: char)
    ensures IsAsciiLetter(LowerChar(c)) <==> IsAsciiLetter(c)
    ensures IsAsciiDigit(LowerChar(c)) <==> IsAsciiDigit(c)
    ensures IsJsWhitespace(LowerChar(c)) <==> IsJsWhitespace(c)
    ensures IsLineTerminator(LowerChar(c)) <==> IsLineTerminator(c)
    ensures !IsAsciiLetter(c) ==> LowerChar(c) == c
  {
  }
}
