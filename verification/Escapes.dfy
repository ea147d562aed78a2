/** Escape sequences in strings: hex digits, surrogate pairs, and UTF-8 encoding. */
module Escapes {
  import opened Bytes
  import opened Masks
  import opened Simd
  import opened Utf8

  // ----- hex digits

  /** Value of a hex digit, or -1: the digit table. */
  function DigitToVal(b: byte): int {
    if IsDigit(b) then b - ZERO
    else if 0x41 <= b <= 0x46 then b - 0x41 + 10
    else if 0x61 <= b <= 0x66 then b - 0x61 + 10
    else -1
  }

  predicate IsHex(b: byte) {
    DigitToVal(b) >= 0
  }

  /** Four hex digits from position `i` on. */
  predicate FourHex(s: seq<byte>, i: nat) {
    IsHex(At(s, i)) && IsHex(At(s, i + 1)) && IsHex(At(s, i + 2)) && IsHex(At(s, i + 3))
  }

  /** The number four hex digits spell. */
  function HexValue(s: seq<byte>, i: nat): (v: nat)
    requires FourHex(s, i)
    ensures v < 0x1_0000
  {
    0x1000 * DigitToVal(At(s, i)) + 0x100 * DigitToVal(At(s, i + 1))
    + 0x10 * DigitToVal(At(s, i + 2)) + DigitToVal(At(s, i + 3))
  }

  /** The character of a digit in base 16, in either case. */
  function HexChar(d: nat, upper: bool): byte
    requires d < 16
  {
    Latin(if upper then "0123456789ABCDEF" else "0123456789abcdef")[d]
  }

  /** A byte is a hex digit of value `d` exactly if it is one of the two characters. */
  lemma DigitSpelled(b: byte, d: nat)
    requires d < 16
    ensures DigitToVal(b) == d <==> b == HexChar(d, false) || b == HexChar(d, true)
  {
    CharIs(d, false);
    CharIs(d, true);
  }

  lemma CharIs(d: nat, upper: bool)
    requires d < 16
    ensures HexChar(d, upper) == if d < 10 then ZERO + d else (if upper then 0x41 else 0x61) + (d - 10)
  {
    var w := if upper then "0123456789ABCDEF" else "0123456789abcdef";
    assert Latin(w)[d] == w[d] as int;
  }

  /** The digits of `n` in base 16, each in the case `upper` says for it, stand at `i`. */
  predicate SpelledInHex(s: seq<byte>, i: nat, n: nat, upper: seq<bool>)
    requires n < 0x1_0000 && |upper| == 4
  {
    && At(s, i) == HexChar(n / 0x1000, upper[0]) && At(s, i + 1) == HexChar(n / 0x100 % 0x10, upper[1])
    && At(s, i + 2) == HexChar(n / 0x10 % 0x10, upper[2]) && At(s, i + 3) == HexChar(n % 0x10, upper[3])
  }

  /** Four digits are a number exactly if they spell it in base 16, in any mixture of cases. */
  lemma HexSpelled(s: seq<byte>, i: nat, n: nat)
    requires n < 0x1_0000
    ensures FourHex(s, i) && HexValue(s, i) == n <==> exists upper: seq<bool> :: |upper| == 4 && SpelledInHex(s, i, n, upper)
  {
    if FourHex(s, i) {
      var upper := ValueIsSpelled(s, i);
    }
    forall upper: seq<bool> | |upper| == 4 && SpelledInHex(s, i, n, upper)
      ensures FourHex(s, i) && HexValue(s, i) == n
    {
      SpelledIsValue(s, i, n, upper);
    }
  }

  lemma SpelledIsValue(s: seq<byte>, i: nat, n: nat, upper: seq<bool>)
    requires n < 0x1_0000 && |upper| == 4 && SpelledInHex(s, i, n, upper)
    ensures FourHex(s, i) && HexValue(s, i) == n
  {
    SumOfDigits(n);
    CharRead(s, i, n / 0x1000, upper[0]);
    CharRead(s, i + 1, n / 0x100 % 0x10, upper[1]);
    CharRead(s, i + 2, n / 0x10 % 0x10, upper[2]);
    CharRead(s, i + 3, n % 0x10, upper[3]);
  }

  lemma CharRead(s: seq<byte>, i: nat, d: nat, upper: bool)
    requires d < 16 && At(s, i) == HexChar(d, upper)
    ensures DigitToVal(At(s, i)) == d
  {
    DigitSpelled(At(s, i), d);
  }

  lemma ValueIsSpelled(s: seq<byte>, i: nat) returns (upper: seq<bool>)
    requires FourHex(s, i)
    ensures |upper| == 4 && SpelledInHex(s, i, HexValue(s, i), upper)
  {
    var a, b, c, d := DigitToVal(At(s, i)), DigitToVal(At(s, i + 1)), DigitToVal(At(s, i + 2)), DigitToVal(At(s, i + 3));
    upper := [CaseOf(At(s, i)), CaseOf(At(s, i + 1)), CaseOf(At(s, i + 2)), CaseOf(At(s, i + 3))];
    FourSpelled(s, i, HexValue(s, i), a, b, c, d, upper);
  }

  lemma FourSpelled(s: seq<byte>, i: nat, n: nat, a: nat, b: nat, c: nat, d: nat, upper: seq<bool>)
    requires a < 16 && b < 16 && c < 16 && d < 16 && n == 0x1000 * a + 0x100 * b + 0x10 * c + d && |upper| == 4
    requires At(s, i) == HexChar(a, upper[0]) && At(s, i + 1) == HexChar(b, upper[1])
    requires At(s, i + 2) == HexChar(c, upper[2]) && At(s, i + 3) == HexChar(d, upper[3])
    ensures n < 0x1_0000 && SpelledInHex(s, i, n, upper)
  {
    DigitsOf(n, a, b, c, d);
  }

  function CaseOf(b: byte): (upper: bool)
    requires IsHex(b)
    ensures b == HexChar(DigitToVal(b), upper)
  {
    DigitSpelled(b, DigitToVal(b));
    b == HexChar(DigitToVal(b), true)
  }

  lemma DigitsOf(n: nat, a: nat, b: nat, c: nat, d: nat)
    requires a < 16 && b < 16 && c < 16 && d < 16 && n == 0x1000 * a + 0x100 * b + 0x10 * c + d
    ensures n / 0x1000 == a && n / 0x100 % 0x10 == b && n / 0x10 % 0x10 == c && n % 0x10 == d
  {
    assert n / 0x10 == 0x100 * a + 0x10 * b + c;
    assert n / 0x100 == 0x10 * a + b;
  }

  lemma SumOfDigits(n: nat)
    requires n < 0x1_0000
    ensures n == 0x1000 * (n / 0x1000) + 0x100 * (n / 0x100 % 0x10) + 0x10 * (n / 0x10 % 0x10) + n % 0x10
    ensures n / 0x1000 < 16
  {
    var q := n / 0x10;
    var r := q / 0x10;
    assert n == 0x10 * q + n % 0x10 && q == 0x10 * r + q % 0x10;
    assert r == n / 0x100 && r / 0x10 == n / 0x1000;
  }

  /** A 32-bit register holding a digit value: all ones for an invalid digit. */
  function Sext(v: int): nat
    requires -1 <= v < 16
  {
    if v < 0 then 0xffff_ffff else v
  }

  function Shl32(x: nat, f: nat): nat {
    x * f % 0x1_0000_0000
  }

  function HexToU32NoCheck(s: seq<byte>, i: nat): nat {
    var v1 := Sext(DigitToVal(At(s, i)));
    var v2 := Sext(DigitToVal(At(s, i + 1)));
    var v3 := Sext(DigitToVal(At(s, i + 2)));
    var v4 := Sext(DigitToVal(At(s, i + 3)));
    Combine(v1, v2, v3, v4)
  }

  function Combine(a: nat, b: nat, c: nat, d: nat): nat {
    BitOr(BitOr(BitOr(Shl32(a, 0x1000), Shl32(b, 0x100)), Shl32(c, 0x10)), d)
  }

  /** The digits of a number in base 16 share no bit. */
  lemma CombineDigits(a: nat, b: nat, c: nat, d: nat)
    requires a < 16 && b < 16 && c < 16 && d < 16
    ensures Combine(a, b, c, d) == 0x1000 * a + 0x100 * b + 0x10 * c + d
  {
    FirstDigits(a, b);
    NextDigit(a * 16 + b, c);
    LastDigit(a * 256 + b * 16 + c, d);
  }

  lemma FirstDigits(a: nat, b: nat)
    requires a < 16 && b < 16
    ensures BitOr(Shl32(a, 0x1000), Shl32(b, 0x100)) == 0x100 * (a * 16 + b)
  {
    ShlDigit(a, 0x1000);
    ShlDigit(b, 0x100);
    JoinDigits(a, b * 0x100, 12, 0x1000, a * 0x1000);
  }

  lemma NextDigit(v: nat, c: nat)
    requires c < 16
    ensures BitOr(0x100 * v, Shl32(c, 0x10)) == 0x10 * (v * 16 + c)
  {
    ShlDigit(c, 0x10);
    JoinDigits(v, c * 0x10, 8, 0x100, 0x100 * v);
  }

  lemma LastDigit(v: nat, d: nat)
    requires d < 16
    ensures BitOr(0x10 * v, d) == 0x10 * v + d
  {
    JoinDigits(v, d, 4, 0x10, 0x10 * v);
  }

  lemma ShlDigit(d: nat, f: nat)
    requires d < 16 && (f == 0x10 || f == 0x100 || f == 0x1000)
    ensures Shl32(d, f) == d * f
  {}

  lemma JoinDigits(x: nat, b: nat, n: nat, p: nat, y: nat)
    requires (n == 4 && p == 0x10) || (n == 8 && p == 0x100) || (n == 12 && p == 0x1000)
    requires b < p && y == x * p
    ensures BitOr(y, b) == y + b
  {
    SmallPowers();
    BitOrDisjoint(x, b, n);
  }

  lemma SmallPowers()
    ensures Pow2(4) == 0x10 && Pow2(8) == 0x100 && Pow2(10) == 0x400 && Pow2(12) == 0x1000
  {
    assert Pow2(3) == 8;
    assert Pow2(6) == 64;
    assert Pow2(9) == 512;
  }

  lemma CombineBound(a: nat, b: nat, c: nat, d: nat)
    ensures Combine(a, b, c, d) >= Shl32(a, 0x1000)
    ensures Combine(a, b, c, d) >= Shl32(b, 0x100)
    ensures Combine(a, b, c, d) >= Shl32(c, 0x10)
    ensures Combine(a, b, c, d) >= d
  {
    var x, y, z := Shl32(a, 0x1000), Shl32(b, 0x100), Shl32(c, 0x10);
    BitOrBound(x, y);
    BitOrBound(BitOr(x, y), z);
    BitOrBound(BitOr(BitOr(x, y), z), d);
  }

  lemma ShlOnes(d: nat, f: nat)
    requires d == 0xffff_ffff && (f == 0x10 || f == 0x100 || f == 0x1000)
    ensures Shl32(d, f) >= 0xffff_f000
  {}

  lemma CombineInvalid(a: nat, b: nat, c: nat, d: nat)
    requires a == 0xffff_ffff || b == 0xffff_ffff || c == 0xffff_ffff || d == 0xffff_ffff
    ensures Combine(a, b, c, d) >= 0xffff_f000
  {
    CombineBound(a, b, c, d);
    if a == 0xffff_ffff { ShlOnes(a, 0x1000); }
    if b == 0xffff_ffff { ShlOnes(b, 0x100); }
    if c == 0xffff_ffff { ShlOnes(c, 0x10); }
  }

  /** Valid digits give their number; an invalid one fills the high bits, beyond every code point. */
  lemma HexChecked(s: seq<byte>, i: nat)
    ensures FourHex(s, i) ==> HexToU32NoCheck(s, i) == HexValue(s, i)
    ensures !FourHex(s, i) ==> HexToU32NoCheck(s, i) >= 0xffff_f000
  {
    var d1, d2, d3, d4 := DigitToVal(At(s, i)), DigitToVal(At(s, i + 1)), DigitToVal(At(s, i + 2)), DigitToVal(At(s, i + 3));
    assert HexToU32NoCheck(s, i) == Combine(Sext(d1), Sext(d2), Sext(d3), Sext(d4));
    if FourHex(s, i) {
      CombineDigits(d1, d2, d3, d4);
    } else {
      CombineInvalid(Sext(d1), Sext(d2), Sext(d3), Sext(d4));
    }
  }

  // ----- encoding a code point

  /** The UTF-8 bytes of a code point; none when it is too large. */
  function Encode(cp: nat): (r: seq<byte>)
    ensures |r| <= 4
    ensures r == [] <==> cp > 0x10_ffff
    ensures cp <= 0xffff ==> |r| <= 3
  {
    if cp <= 0x7f then [cp]
    else if cp <= 0x7ff then [cp / 64 + 192, cp % 64 + 128]
    else if cp <= 0xffff then [cp / 4096 + 224, cp / 64 % 64 + 128, cp % 64 + 128]
    else if cp <= 0x10_ffff then [cp / 0x4_0000 + 240, cp / 4096 % 64 + 128, cp / 64 % 64 + 128, cp % 64 + 128]
    else []
  }

  /** The code point a sequence of one to four bytes stands for, by section 3 of RFC 3629. */
  function Decode(r: seq<byte>): int
    requires 1 <= |r| <= 4
  {
    var a := r[0] as int;
    if |r| == 1 then a
    else if |r| == 2 then 64 * (a - 192) + Tail(r[1])
    else if |r| == 3 then 4096 * (a - 224) + 64 * Tail(r[1]) + Tail(r[2])
    else 0x4_0000 * (a - 240) + 4096 * Tail(r[1]) + 64 * Tail(r[2]) + Tail(r[3])
  }

  function Tail(b: byte): int {
    b as int - 128
  }

  predicate IsSurrogate(cp: int) {
    0xd800 <= cp < 0xe000
  }

  lemma Split64(cp: nat)
    ensures cp == 64 * (cp / 64) + cp % 64
    ensures cp / 4096 == cp / 64 / 64
    ensures cp / 0x4_0000 == cp / 4096 / 64
  {}

  /** The encoding decodes to the code point, and is one well-formed sequence unless that is a surrogate. */
  lemma EncodeExact(cp: nat)
    requires cp <= 0x10_ffff
    ensures Decode(Encode(cp)) == cp
    ensures SequenceAt(Encode(cp), 0) == |Encode(cp)| <==> !IsSurrogate(cp)
  {
    Split64(cp);
  }

  /** Writes the encoding of a code point at `d` and returns its length, 0 for a number too large. */
  method CodepointToUtf8(cp: nat, c: array<byte>, d: nat) returns (n: nat)
    requires d + 4 <= c.Length
    modifies c
    ensures n == |Encode(cp)|
    ensures c[..] == old(c[..d]) + Encode(cp) + old(c[d + n..])
  {
    if cp <= 0x7f {
      c[d] := cp;
      n := 1;
    } else if cp <= 0x7ff {
      c[d] := cp / 64 + 192;
      c[d + 1] := cp % 64 + 128;
      n := 2;
    } else if cp <= 0xffff {
      c[d] := cp / 4096 + 224;
      c[d + 1] := cp / 64 % 64 + 128;
      c[d + 2] := cp % 64 + 128;
      n := 3;
    } else if cp <= 0x10_ffff {
      c[d] := cp / 0x4_0000 + 240;
      c[d + 1] := cp / 4096 % 64 + 128;
      c[d + 2] := cp / 64 % 64 + 128;
      c[d + 3] := cp % 64 + 128;
      n := 4;
    } else {
      n := 0;
    }
  }

  // ----- one escape

  /** What an escape stands for and how many bytes it takes up. */
  datatype Escape = Escape(bytes: seq<byte>, len: nat)

  /** A `\u` escape that stands for itself: any code unit but a high surrogate. */
  predicate Single(s: seq<byte>, i: nat) {
    FourHex(s, i + 2) && !(0xd800 <= HexValue(s, i + 2) < 0xdc00)
  }

  /** A high surrogate followed by a `\u` escape that is taken for its low surrogate: DC00 or above. */
  predicate Joined(s: seq<byte>, i: nat) {
    FourHex(s, i + 2) && 0xd800 <= HexValue(s, i + 2) < 0xdc00
    && At(s, i + 6) == BACKSLASH && At(s, i + 7) == LOWER_U && FourHex(s, i + 8) && HexValue(s, i + 8) >= 0xdc00
  }

  /** The code point two such code units are joined to. */
  function JoinedCode(cp: nat, cp2: nat): nat
    requires 0xd800 <= cp < 0xdc00 <= cp2
  {
    BitOr((cp - 0xd800) * 1024, cp2 - 0xdc00) + 0x1_0000
  }

  /** The `\u` escapes the parser accepts. */
  function UnicodeEscape(s: seq<byte>, i: nat): Option<Escape> {
    if Single(s, i) then Some(Escape(Encode(HexValue(s, i + 2)), 6))
    else if Joined(s, i) then Some(Escape(Encode(JoinedCode(HexValue(s, i + 2), HexValue(s, i + 8))), 12))
    else None
  }

  /** A low surrogate supplies the low ten bits; nothing that is joined overflows the code space. */
  lemma JoinedBound(cp: nat, cp2: nat)
    requires 0xd800 <= cp < 0xdc00 <= cp2 < 0x1_0000
    ensures JoinedCode(cp, cp2) <= 0x10_ffff
    ensures cp2 < 0xe000 ==> JoinedCode(cp, cp2) == (cp - 0xd800) * 1024 + (cp2 - 0xdc00) + 0x1_0000
  {
    var c1, c2 := cp - 0xd800, cp2 - 0xdc00;
    SmallPowers();
    Pow20();
    BitOrBelow(c1 * 1024, c2, 20);
    if c2 < 0x400 { BitOrDisjoint(c1, c2, 10); }
  }

  /** Whatever is joined: the ten low bits of the second unit, under the bits of either above them. */
  lemma JoinedExact(cp: nat, cp2: nat)
    requires 0xd800 <= cp < 0xdc00 <= cp2
    ensures var c1, c2 := cp - 0xd800, cp2 - 0xdc00;
            JoinedCode(cp, cp2) == 0x1_0000 + 1024 * BitOr(c1, c2 / 1024) + c2 % 1024
  {
    var c1, c2 := cp - 0xd800, cp2 - 0xdc00;
    SmallPowers();
    BitOrShifted(c1, c2 / 1024, c2 % 1024, 10);
  }

  lemma JoinedAbove()
    ensures JoinedCode(0xd800, 0xe000) == 0x1_0400
  {
    JoinedExact(0xd800, 0xe000);
    assert BitOr(0, 1) == 1;
  }

  lemma Pow20()
    ensures Pow2(20) == 0x10_0000
  {
    assert Pow2(10) == 1024;
    assert Pow2(13) == 8 * Pow2(10);
    assert Pow2(16) == 8 * Pow2(13);
    assert Pow2(19) == 8 * Pow2(16);
  }

  lemma BelowPlane(x: nat, y: nat)
    requires x < 0x1_0000
    ensures BitOr(x, y) / 0x1_0000 == 0 <==> y < 0x1_0000
  {
    assert Pow2(16) == 0x1_0000 by {
      SmallPowers();
      assert Pow2(15) == 8 * Pow2(12);
    }
    if y < 0x1_0000 { BitOrBelow(x, y, 16); } else { BitOrBound(x, y); }
  }

  /** The parser's test on the two registers, by what the digits say. */
  lemma RegistersTell(s: seq<byte>, i: nat)
    ensures var cp, cp2 := HexToU32NoCheck(s, i + 2), HexToU32NoCheck(s, i + 8);
            && (Single(s, i) ==> cp == HexValue(s, i + 2))
            && (Joined(s, i) ==> cp == HexValue(s, i + 2) && cp2 == HexValue(s, i + 8))
            && (0xd800 <= cp < 0xdc00 ==>
                  !Single(s, i) && (Joined(s, i) <==> At(s, i + 6) == BACKSLASH && At(s, i + 7) == LOWER_U
                                                      && BitOr(cp, cp2) / 0x1_0000 == 0 && cp2 >= 0xdc00))
            && (!(0xd800 <= cp < 0xdc00) ==> !Joined(s, i) && (Single(s, i) <==> cp <= 0x10_ffff))
  {
    HexChecked(s, i + 2);
    HexChecked(s, i + 8);
    var cp, cp2 := HexToU32NoCheck(s, i + 2), HexToU32NoCheck(s, i + 8);
    if 0xd800 <= cp < 0xdc00 { BelowPlane(cp, cp2); }
  }

  lemma JoinedFits(cp: nat, cp2: nat)
    requires 0xd800 <= cp < 0xdc00 <= cp2 && BitOr(cp, cp2) / 0x1_0000 == 0
    ensures JoinedCode(cp, cp2) <= 0x10_ffff
  {
    BelowPlane(cp, cp2);
    JoinedBound(cp, cp2);
  }

  lemma SingleTold(s: seq<byte>, i: nat)
    ensures var cp := HexToU32NoCheck(s, i + 2);
            !(0xd800 <= cp < 0xdc00) ==>
              UnicodeEscape(s, i) == if cp <= 0x10_ffff then Some(Escape(Encode(cp), 6)) else None
  {
    RegistersTell(s, i);
  }

  lemma JoinedTold(s: seq<byte>, i: nat)
    ensures var cp, cp2 := HexToU32NoCheck(s, i + 2), HexToU32NoCheck(s, i + 8);
            0xd800 <= cp < 0xdc00 ==>
              UnicodeEscape(s, i) == if At(s, i + 6) == BACKSLASH && At(s, i + 7) == LOWER_U
                                        && BitOr(cp, cp2) / 0x1_0000 == 0 && cp2 >= 0xdc00
                                     then Some(Escape(Encode(JoinedCode(cp, cp2)), 12)) else None
  {
    RegistersTell(s, i);
  }

  /** `r` is the code point of the escape at `p` and its length: none, or an error, for an illegal one. */
  ghost predicate IsCodepoint(src: seq<byte>, p: nat, r: Result<Option<(nat, nat)>>) {
    UnicodeEscape(src, p) == if r.Ok? && r.value.Some? && r.value.value.0 <= 0x10_ffff
                             then Some(Escape(Encode(r.value.value.0), r.value.value.1)) else None
  }

  predicate Joins(s: seq<byte>, i: nat, cp: nat, cp2: nat) {
    At(s, i + 6) == BACKSLASH && At(s, i + 7) == LOWER_U && BitOr(cp, cp2) / 0x1_0000 == 0 && cp2 >= 0xdc00
  }

  lemma JoinIsRead(s: seq<byte>, i: nat, cp: nat, cp2: nat)
    requires cp == HexToU32NoCheck(s, i + 2) && 0xd800 <= cp < 0xdc00 && cp2 == HexToU32NoCheck(s, i + 8)
    ensures Joins(s, i, cp, cp2) ==> IsCodepoint(s, i, Ok(Some((JoinedCode(cp, cp2), 12))))
    ensures !Joins(s, i, cp, cp2) ==> IsCodepoint(s, i, Ok(None)) && IsCodepoint(s, i, Err(InvalidUTF8))
  {
    JoinedTold(s, i);
    if Joins(s, i, cp, cp2) { JoinedFits(cp, cp2); }
  }

  /** The low half that belongs to the high surrogate `codePoint`. */
  method JoinLow(src: seq<byte>, p: nat, codePoint: nat) returns (r: Result<Option<(nat, nat)>>)
    requires codePoint == HexToU32NoCheck(src, p + 2) && 0xd800 <= codePoint < 0xdc00
    ensures IsCodepoint(src, p, r)
  {
    JoinIsRead(src, p, codePoint, HexToU32NoCheck(src, p + 8));
    var srcPtr := p + 6;
    if At(src, srcPtr) != BACKSLASH || At(src, srcPtr + 1) != LOWER_U {
      return Ok(None);
    }
    var codePoint2 := HexToU32NoCheck(src, srcPtr + 2);
    r := JoinUnits(codePoint, codePoint2);
  }

  /** Joins the two units if the second belongs to the same plane and is none below the low surrogates. */
  method JoinUnits(codePoint: nat, codePoint2: nat) returns (r: Result<Option<(nat, nat)>>)
    requires 0xd800 <= codePoint < 0xdc00
    ensures r == if BitOr(codePoint, codePoint2) / 0x1_0000 != 0 then Ok(None)
                 else if codePoint2 < 0xdc00 then Err(InvalidUTF8)
                 else Ok(Some((JoinedCode(codePoint, codePoint2), 12)))
  {
    if BitOr(codePoint, codePoint2) / 0x1_0000 != 0 {
      return Ok(None);
    }
    if codePoint2 < 0xdc00 {
      return Err(InvalidUTF8);
    }
    var c1, c2 := codePoint - 0xd800, codePoint2 - 0xdc00;
    return Ok(Some((BitOr(c1 * 1024, c2) + 0x1_0000, 12)));
  }

  method ReadCodepoint(src: seq<byte>, p: nat) returns (r: Result<Option<(nat, nat)>>)
    ensures IsCodepoint(src, p, r)
  {
    SingleTold(src, p);
    var codePoint := HexToU32NoCheck(src, p + 2);
    if 0xd800 <= codePoint < 0xdc00 {
      r := JoinLow(src, p, codePoint);
    } else {
      r := Ok(Some((codePoint, 6)));
    }
  }

  /**
   Reads the `\u` escape at `p` of `src` and writes what it stands for at `d` of `dst`. Returns the
   numbers of bytes written and read; an error, or nothing written, for an illegal escape.
   */
  method HandleUnicodeCodepoint(src: array<byte>, p: nat, dst: array<byte>, d: nat)
    returns (r: Result<(nat, nat)>)
    requires src != dst && d + 4 <= dst.Length
    modifies dst
    ensures UnicodeEscape(src[..], p).None? ==> r.Err? || r.value.0 == 0
    ensures UnicodeEscape(src[..], p).Some? ==>
              var e := UnicodeEscape(src[..], p).value;
              r == Ok((|e.bytes|, e.len)) && dst[..] == old(dst[..d]) + e.bytes + old(dst[d + |e.bytes|..])
  {
    var read := ReadCodepoint(src[..], p);
    if read.Err? {
      return Err(read.error);
    }
    if read.value.None? {
      return Ok((0, 6));
    }
    var (codePoint, srcOffset) := read.value.value;
    var offset := CodepointToUtf8(codePoint, dst, d);
    return Ok((offset, srcOffset));
  }

  /** What a one-letter escape stands for, or 0: the escape table. */
  function EscapeMap(b: byte): byte {
    if b == QUOTE then QUOTE
    else if b == SLASH then SLASH
    else if b == BACKSLASH then BACKSLASH
    else if b == LOWER_B then 0x08
    else if b == LOWER_F then 0x0c
    else if b == LOWER_N then 0x0a
    else if b == LOWER_R then 0x0d
    else if b == LOWER_T then 0x09
    else 0
  }

  /** The escape at position `i`: none when the parser refuses it. */
  function EscapeAt(s: seq<byte>, i: nat): Option<Escape> {
    if At(s, i + 1) == LOWER_U then UnicodeEscape(s, i)
    else if EscapeMap(At(s, i + 1)) == 0 then None
    else Some(Escape([EscapeMap(At(s, i + 1))], 2))
  }

  lemma EscapeBounds(s: seq<byte>, i: nat)
    ensures EscapeAt(s, i).Some? ==> 1 <= |EscapeAt(s, i).value.bytes| < EscapeAt(s, i).value.len <= 12
    ensures EscapeAt(s, i).Some? ==> |EscapeAt(s, i).value.bytes| <= 4
  {
    if Joined(s, i) { JoinedBound(HexValue(s, i + 2), HexValue(s, i + 8)); }
  }
}
