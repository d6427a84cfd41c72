/**
 C bytes and C strings. A C string is the sequence of the bytes before its NUL, so that
 index |s| is the terminator and reading any later index is out of bounds.
 */
module Bytes {
  type byte = x: int | 0 <= x < 256
  type bytes = seq<byte>

  datatype Option<+T> = None | Some(value: T)

  const NUL: byte := 0
  const NEWLINE: byte := 10
  const SPACE: byte := 32
  const QUOTE: byte := 34        // "
  const PERCENT: byte := 37      // %
  const AMPERSAND: byte := 38    // &
  const PLUS: byte := 43         // +
  const COMMA: byte := 44        // ,
  const MINUS: byte := 45        // -
  const DOT: byte := 46          // .
  const SLASH: byte := 47        // /
  const ZERO: byte := 48         // 0
  const COLON: byte := 58        // :
  const SEMICOLON: byte := 59    // ;
  const EQUALS: byte := 61       // =
  const QUESTION: byte := 63     // ?
  const UPPER_E: byte := 69      // E
  const UPPER_X: byte := 88      // X
  const LBRACKET: byte := 91     // [
  const BACKSLASH: byte := 92    // \
  const RBRACKET: byte := 93     // ]
  const LOWER_E: byte := 101     // e
  const LOWER_U: byte := 117     // u
  const LOWER_X: byte := 120     // x
  const LBRACE: byte := 123      // {
  const RBRACE: byte := 125      // }

  /** isspace in the C locale. */
  predicate IsSpace(c: byte) { c == 32 || 9 <= c <= 13 }

  /** isdigit. */
  predicate IsDigit(c: byte) { 48 <= c <= 57 }

  /** isxdigit. */
  predicate IsHex(c: byte) { 48 <= c <= 57 || 65 <= c <= 70 || 97 <= c <= 102 }

  predicate NulFree(s: bytes) { NUL !in s }

  predicate AllSpaces(s: bytes) { forall i | 0 <= i < |s| :: IsSpace(s[i]) }

  /** The byte a C string holds at index i; the terminator is readable, what follows it is not. */
  function At(s: bytes, i: nat): byte
    requires i <= |s|
  {
    if i < |s| then s[i] else NUL
  }

  /** What C string functions see of a buffer: the bytes before the first NUL. */
  function CStr(s: bytes): bytes
  {
    if s == [] || s[0] == NUL then [] else [s[0]] + CStr(s[1..])
  }

  /** The longest prefix without a NUL. */
  lemma {:induction false} CStrIsPrefix(s: bytes)
    ensures NulFree(CStr(s)) && CStr(s) <= s
    ensures |CStr(s)| < |s| ==> s[|CStr(s)|] == NUL
  {
    if s != [] && s[0] != NUL {
      CStrIsPrefix(s[1..]);
    }
  }

  lemma {:induction false} CStrOfNulFree(s: bytes)
    requires NulFree(s)
    ensures CStr(s) == s
  {
    if s != [] {
      CStrOfNulFree(s[1..]);
    }
  }

  /** The SKIP_WHITESPACES loop. */
  function SkipSpaces(s: bytes): (r: bytes)
    ensures |r| <= |s|
    ensures r != [] ==> !IsSpace(r[0])
  {
    if s != [] && IsSpace(s[0]) then SkipSpaces(s[1..]) else s
  }
}
