/**
 Bytes, the characters the lexers care about, and the C-locale character classes.
 Everything in the program works on `char` buffers, so text is a sequence of bytes here.
 */
module Bytes {

  newtype byte = x: int | 0 <= x < 256
  type bytes = seq<byte>

  datatype Option<+T> = None | Some(value: T)

  datatype Result<+T, +E> = Ok(value: T) | Err(error: E)

  const NUL: byte := 0x00
  const BEL: byte := 0x07
  const BS: byte := 0x08
  const TAB: byte := 0x09
  const LF: byte := 0x0a
  const FF: byte := 0x0c
  const CR: byte := 0x0d
  const SPACE: byte := 0x20
  const QUOTE: byte := 0x22        // "
  const DOLLAR: byte := 0x24       // $
  const APOSTROPHE: byte := 0x27   // '
  const PLUS: byte := 0x2b         // +
  const COMMA: byte := 0x2c        // ,
  const MINUS: byte := 0x2d        // -
  const DOT: byte := 0x2e          // .
  const SLASH: byte := 0x2f        // /
  const COLON: byte := 0x3a        // :
  const LBRACKET: byte := 0x5b     // [
  const BACKSLASH: byte := 0x5c    // \
  const RBRACKET: byte := 0x5d     // ]
  const UNDERSCORE: byte := 0x5f   // _
  const LBRACE: byte := 0x7b       // {
  const RBRACE: byte := 0x7d       // }

  const NULL_TEXT: bytes := [0x6e, 0x75, 0x6c, 0x6c]          // null
  const TRUE_TEXT: bytes := [0x74, 0x72, 0x75, 0x65]          // true
  const FALSE_TEXT: bytes := [0x66, 0x61, 0x6c, 0x73, 0x65]   // false

  predicate IsDigit(c: byte) { 0x30 <= c <= 0x39 }

  predicate IsAlpha(c: byte) { 0x41 <= c <= 0x5a || 0x61 <= c <= 0x7a }

  predicate IsAlnum(c: byte) { IsAlpha(c) || IsDigit(c) }

  function HexDigit(d: int): (c: byte)
    requires 0 <= d < 16
  {
    if d < 10 then (0x30 + d) as byte else (0x61 + d - 10) as byte
  }

  /** 0 to 9 and a to f. */
  const HEX_DIGITS: bytes :=
    [0x30, 0x31, 0x32, 0x33, 0x34, 0x35, 0x36, 0x37, 0x38, 0x39, 0x61, 0x62, 0x63, 0x64, 0x65, 0x66]

  lemma HexDigitIs(d: int)
    requires 0 <= d < 16
    ensures HexDigit(d) == HEX_DIGITS[d]
  {
  }

  function HexValue(c: byte): (r: Option<int>)
    ensures r.Some? ==> 0 <= r.value < 16
  {
    if IsDigit(c) then Some(c as int - 0x30)
    else if 0x61 <= c <= 0x66 then Some(c as int - 0x61 + 10)
    else if 0x41 <= c <= 0x46 then Some(c as int - 0x41 + 10)
    else None
  }

  /** `isprint` in the C locale. */
  predicate IsPrint(c: byte) { 0x20 <= c <= 0x7e }

  /** The prefix of a buffer that C string functions see: everything before the first NUL. */
  function CString(s: bytes): (r: bytes)
    ensures |r| <= |s| && r == s[..|r|] && NUL !in r
    ensures NUL !in s ==> r == s
    ensures |r| < |s| ==> s[|r|] == NUL
  {
    if s == [] || s[0] == NUL then [] else [s[0]] + CString(s[1..])
  }

  /** The text `b` sits in `text` at offset `pos`. */
  ghost predicate At(text: bytes, pos: nat, b: bytes) {
    pos + |b| <= |text| && text[pos..pos + |b|] == b
  }

  lemma AtConcat(text: bytes, pos: nat, a: bytes, b: bytes)
    requires At(text, pos, a + b)
    ensures At(text, pos, a) && At(text, pos + |a|, b)
  {
    assert text[pos..pos + |a|] == text[pos..pos + |a + b|][..|a|] == a;
    assert text[pos + |a|..pos + |a| + |b|] == text[pos..pos + |a + b|][|a|..] == b;
  }
}
