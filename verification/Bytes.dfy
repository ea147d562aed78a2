/** Bytes, the characters the parser looks for, and the character classes of its lookup tables. */
module Bytes {

  type byte = b: int | 0 <= b < 256

  datatype Option<+T> = None | Some(value: T)

  datatype Result<+T> = Ok(value: T) | Err(error: ErrorType)

  datatype ErrorType =
    | Syntax
    | EOF
    | InternalError
    | InvalidUTF8
    | TrailingCharacters
    | ExpectedArrayContent
    | ExpectedObjectKey
    | ExpectedObjectContent
    | ExpectedObjectColon
    | ExpectedBoolean
    | ExpectedNull
    | InvalidEscape
    | InvalidUnicodeCodepoint
    | InvalidNumber
    | InvalidExponent
    | Overflow
    | Parser
    | UnexpectedCharacter

  const QUOTE: byte := 0x22
  const BACKSLASH: byte := 0x5c
  const SLASH: byte := 0x2f
  const LBRACE: byte := 0x7b
  const RBRACE: byte := 0x7d
  const LBRACKET: byte := 0x5b
  const RBRACKET: byte := 0x5d
  const COLON: byte := 0x3a
  const COMMA: byte := 0x2c
  const SPACE: byte := 0x20
  const LINEFEED: byte := 0x0a
  const TAB: byte := 0x09
  const RETURN: byte := 0x0d
  const MINUS: byte := 0x2d
  const PLUS: byte := 0x2b
  const PERIOD: byte := 0x2e
  const ZERO: byte := 0x30
  const NINE: byte := 0x39
  const UPPER_E: byte := 0x45
  const LOWER_E: byte := 0x65
  const LOWER_B: byte := 0x62
  const LOWER_F: byte := 0x66
  const LOWER_N: byte := 0x6e
  const LOWER_R: byte := 0x72
  const LOWER_T: byte := 0x74
  const LOWER_U: byte := 0x75

  const TRUE: seq<byte> := [0x74, 0x72, 0x75, 0x65]
  const FALSE: seq<byte> := [0x66, 0x61, 0x6c, 0x73, 0x65]
  const NULL: seq<byte> := [0x6e, 0x75, 0x6c, 0x6c]

  /** The byte at position `i` of an input that continues with zeros. */
  function At(s: seq<byte>, i: nat): byte {
    if i < |s| then s[i] else 0
  }

  /** However many zeros are put behind an input, its bytes are those. */
  lemma ZerosFollow(s: seq<byte>, n: nat, i: nat)
    requires i < |s| + n
    ensures At(s, i) == (s + seq<byte>(n, _ => 0))[i]
  {}

  predicate IsStructural(b: byte) {
    b == LBRACE || b == RBRACE || b == LBRACKET || b == RBRACKET || b == COLON || b == COMMA
  }

  predicate IsBlank(b: byte) {
    b == SPACE || b == LINEFEED || b == TAB || b == RETURN
  }

  predicate IsDigit(b: byte) {
    ZERO <= b <= NINE
  }

  /** The bytes at which a number or an atom may stop: the structural-or-whitespace table. */
  predicate IsTerminator(b: byte) {
    IsStructural(b) || IsBlank(b) || b == 0
  }

  predicate IsAscii(b: byte) {
    b < 0x80
  }

  // ----- the same by the characters of the standard

  predicate IsLatin(w: string) {
    forall k :: 0 <= k < |w| ==> w[k] as int < 256
  }

  /** The bytes of a text that has no character beyond one byte. */
  function Latin(w: string): (s: seq<byte>)
    requires IsLatin(w)
    ensures |s| == |w| && forall k :: 0 <= k < |w| ==> s[k] == w[k] as int
  {
    seq(|w|, k requires 0 <= k < |w| => w[k] as int)
  }

  /** The classes are those of sections 2 and 6 of RFC 8259; a NUL ends a token like the first two do. */
  lemma ClassesSpelled(b: byte)
    ensures IsStructural(b) <==> b in Latin("{}[]:,")
    ensures IsBlank(b) <==> b in Latin(" \t\n\r")
    ensures IsDigit(b) <==> b in Latin("0123456789")
    ensures IsTerminator(b) <==> b in Latin("{}[]:, \t\n\r\0")
  {
    assert Latin("{}[]:,") == [0x7b, 0x7d, 0x5b, 0x5d, 0x3a, 0x2c];
    assert Latin(" \t\n\r") == [0x20, 0x09, 0x0a, 0x0d];
    assert Latin("0123456789") == [0x30, 0x31, 0x32, 0x33, 0x34, 0x35, 0x36, 0x37, 0x38, 0x39];
    assert Latin("{}[]:, \t\n\r\0") == [0x7b, 0x7d, 0x5b, 0x5d, 0x3a, 0x2c, 0x20, 0x09, 0x0a, 0x0d, 0];
  }

  lemma CharactersSpelled()
    ensures [QUOTE, BACKSLASH, SLASH, MINUS, PLUS, PERIOD] == Latin("\"\\/-+.")
    ensures [LBRACE, RBRACE, LBRACKET, RBRACKET, COLON, COMMA] == Latin("{}[]:,")
    ensures [UPPER_E, LOWER_E, LOWER_B, LOWER_F, LOWER_N, LOWER_R, LOWER_T, LOWER_U] == Latin("Eebfnrtu")
    ensures TRUE == Latin("true") && FALSE == Latin("false") && NULL == Latin("null")
  {}
}
