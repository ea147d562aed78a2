/** Eight digits at a time: the test on a 64-bit word, and the multiply-add tree. */
module Swar {
  import opened Bytes
  import opened Masks
  import opened Simd
  import opened Numbers

  // ----- 64-bit words by their bytes, least significant first

  type Word = w: seq<byte> | |w| == 8 witness seq<byte>(8, _ => 0)

  function LoadWord(s: seq<byte>, i: nat): (w: Word)
    ensures forall k :: 0 <= k < 8 ==> w[k] == At(s, i + k)
  {
    [At(s, i), At(s, i + 1), At(s, i + 2), At(s, i + 3), At(s, i + 4), At(s, i + 5), At(s, i + 6), At(s, i + 7)]
  }

  function Repeat(b: byte): Word {
    seq<byte>(8, _ => b)
  }

  function AndWord(a: Word, b: Word): Word {
    seq<byte>(8, k requires 0 <= k < 8 => BitAnd8(a[k], b[k]))
  }

  function OrWord(a: Word, b: Word): Word {
    seq<byte>(8, k requires 0 <= k < 8 => BitOr8(a[k], b[k]))
  }

  /** Shifted right by four: each byte takes in the low half of the next one. */
  function ShiftRight4(a: Word): Word {
    seq<byte>(8, k requires 0 <= k < 8 => a[k] / 16 + (if k == 7 then 0 else a[k + 1] % 16 * 16))
  }

  /** The carry into byte `k` of a sum. */
  function CarryByte(a: Word, b: Word, k: nat): (c: nat)
    requires k <= 8
    ensures c <= 1
  {
    if k == 0 then 0 else (a[k - 1] + b[k - 1] + CarryByte(a, b, k - 1)) / 256
  }

  function AddWords(a: Word, b: Word): Word {
    seq<byte>(8, k requires 0 <= k < 8 => (a[k] + b[k] + CarryByte(a, b, k)) % 256)
  }

  /** The number in the first `n` bytes. */
  function Number(a: Word, n: nat): nat
    requires n <= 8
  {
    if n == 0 then 0 else Number(a, n - 1) + Pow256(n - 1) * a[n - 1]
  }

  /** The bytes of the word are those of the little-endian load. */
  lemma {:induction false} WordIsLoad(s: seq<byte>, i: nat, n: nat)
    requires n <= 8
    ensures Number(LoadWord(s, i), n) == Load(s, i, n)
  {
    if n > 0 {
      WordIsLoad(s, i, n - 1);
      LoadTop(s, i, n - 1);
    }
  }

  /** The bytewise sum is the sum of the numbers, up to a carry out of the top byte. */
  lemma {:induction false} AddWordsAdds(a: Word, b: Word, n: nat)
    requires n <= 8
    ensures Number(AddWords(a, b), n) + Pow256(n) * CarryByte(a, b, n) == Number(a, n) + Number(b, n)
  {
    if n > 0 {
      AddWordsAdds(a, b, n - 1);
      var p, x, y, c := Pow256(n - 1), a[n - 1], b[n - 1], CarryByte(a, b, n - 1);
      ByteSum(p, x, y, c);
    }
  }

  lemma ByteSum(p: nat, x: byte, y: byte, c: nat)
    ensures p * ((x + y + c) % 256) + 256 * p * ((x + y + c) / 256) == p * x + p * y + p * c
  {
    var q, r := (x + y + c) / 256, (x + y + c) % 256;
    assert 256 * q + r == x as int + y + c;
    assert p * (256 * q + r) == p * (x as int + y + c);
    assert p * (256 * q + r) == 256 * p * q + p * r;
  }

  // ----- the digit test

  predicate IsMadeOfEightDigitsFast(s: seq<byte>, i: nat) {
    var val := LoadWord(s, i);
    OrWord(AndWord(val, Repeat(0xf0)), ShiftRight4(AndWord(AddWords(val, Repeat(0x06)), Repeat(0xf0))))
    == Repeat(0x33)
  }

  lemma HighHalf(b: byte)
    ensures BitAnd(b, 0xf0) == 16 * (b / 16)
  {
    HighHalfOf(b, 15);
    BitAnd0f(b / 16);
  }

  lemma HighHalfOf(b: nat, c: nat)
    ensures BitAnd(b, 16 * c) == 16 * BitAnd(b / 16, c)
  {
    QuarterOf(b, 4 * c);
    QuarterOf(b / 4, c);
    assert b / 4 / 4 == b / 16;
  }

  lemma QuarterOf(b: nat, c: nat)
    ensures BitAnd(b, 4 * c) == 4 * BitAnd(b / 4, c)
  {
    AndEven(b, 2 * c);
    AndEven(b / 2, c);
    assert b / 2 / 2 == b / 4;
  }

  lemma AndEven(b: nat, c: nat)
    ensures BitAnd(b, 2 * c) == 2 * BitAnd(b / 2, c)
  {}

  lemma JoinHalves(h: nat, l: nat)
    requires h < 16 && l < 16
    ensures BitOr(16 * h, l) == 16 * h + l
  {
    assert Pow2(4) == 16;
    BitOrDisjoint(h, l, 4);
  }

  function HighHalves(w: Word): Word {
    seq<byte>(8, k requires 0 <= k < 8 => 16 * (w[k] / 16))
  }

  lemma MaskedWord(w: Word)
    ensures AndWord(w, Repeat(0xf0)) == HighHalves(w)
  {
    forall k | 0 <= k < 8 ensures AndWord(w, Repeat(0xf0))[k] == HighHalves(w)[k] {
      HighHalf(w[k]);
    }
  }

  /** The tested word has the high halves of the input bytes above the high halves of their sums with 6. */
  lemma TestedByte(val: Word, sum: Word, k: nat)
    requires k < 8
    ensures OrWord(HighHalves(val), ShiftRight4(HighHalves(sum)))[k] == 16 * (val[k] / 16) + sum[k] / 16
  {
    var low := ShiftRight4(HighHalves(sum));
    assert low[k] == sum[k] / 16;
    JoinHalves(val[k] / 16, sum[k] / 16);
  }

  /** The test, byte by byte. */
  ghost predicate Passes(val: Word, k: nat)
    requires k < 8
  {
    16 * (val[k] / 16) + AddWords(val, Repeat(0x06))[k] / 16 == 0x33
  }

  lemma PassOne(val: Word, k: nat)
    requires k < 8 && CarryByte(val, Repeat(0x06), k) == 0
    ensures Passes(val, k) <==> IsDigit(val[k])
    ensures IsDigit(val[k]) ==> CarryByte(val, Repeat(0x06), k + 1) == 0
  {}

  /** No carry comes out of digits, and only out of digits comes a byte that passes. */
  lemma {:induction false} PassesExact(val: Word, n: nat)
    requires n <= 8
    ensures (forall k :: 0 <= k < n ==> Passes(val, k)) <==> (forall k :: 0 <= k < n ==> IsDigit(val[k]))
    ensures (forall k :: 0 <= k < n ==> IsDigit(val[k])) ==> CarryByte(val, Repeat(0x06), n) == 0
  {
    if n > 0 {
      PassesExact(val, n - 1);
      if CarryByte(val, Repeat(0x06), n - 1) == 0 {
        PassOne(val, n - 1);
      } else {
        var k :| 0 <= k < n - 1 && !IsDigit(val[k]);
        var j :| 0 <= j < n - 1 && !Passes(val, j);
      }
    }
  }

  lemma EightDigitsFast(s: seq<byte>, i: nat)
    ensures IsMadeOfEightDigitsFast(s, i) <==> forall k :: i <= k < i + 8 ==> IsDigit(At(s, k))
  {
    var val := LoadWord(s, i);
    var sum := AddWords(val, Repeat(0x06));
    MaskedWord(val);
    MaskedWord(sum);
    var tested := OrWord(HighHalves(val), ShiftRight4(HighHalves(sum)));
    forall k | 0 <= k < 8 ensures Passes(val, k) <==> tested[k] == 0x33 {
      TestedByte(val, sum, k);
    }
    PassesExact(val, 8);
    AllPass(val, tested);
    assert forall k :: i <= k < i + 8 ==> At(s, k) == val[k - i];
    assert forall k :: 0 <= k < 8 ==> val[k] == At(s, i + k);
  }

  lemma AllPass(val: Word, tested: Word)
    requires forall k :: 0 <= k < 8 ==> (Passes(val, k) <==> tested[k] == 0x33)
    ensures tested == Repeat(0x33) <==> forall k :: 0 <= k < 8 ==> Passes(val, k)
  {
    if tested == Repeat(0x33) {
      forall k | 0 <= k < 8 ensures Passes(val, k) { assert tested[k] == Repeat(0x33)[k]; }
    }
  }

  // ----- the multiply-add tree

  function Saturate16(v: int): int {
    if v > 0x7fff then 0x7fff else if v < -0x8000 then -0x8000 else v
  }

  function SaturateU16(v: int): nat {
    if v > 0xffff then 0xffff else if v < 0 then 0 else v
  }

  function Signed16(v: int): int {
    if v >= 0x8000 then v - 0x1_0000 else v
  }

  function SubEpi8(a: byte, b: byte): byte {
    (a + 256 - b) % 256
  }

  /** Unsigned bytes times `f` and 1 in turn, added in pairs, saturating. */
  function MaddubsEpi16(a: seq<int>, f: int): seq<int>
    requires |a| == 16
  {
    seq(8, k requires 0 <= k < 8 => Saturate16(f * a[2 * k] + a[2 * k + 1]))
  }

  /** Signed 16-bit lanes times `f` and 1 in turn, added in pairs; the factors used keep the sums in 32 bits. */
  function MaddEpi16(a: seq<int>, f: int): seq<int>
    requires |a| == 8
  {
    seq(4, k requires 0 <= k < 4 => f * Signed16(a[2 * k]) + Signed16(a[2 * k + 1]))
  }

  /** 32-bit lanes packed into unsigned 16-bit ones, saturating. */
  function PackusEpi32(a: seq<int>, b: seq<int>): seq<int>
    requires |a| == |b| == 4
  {
    seq(8, k requires 0 <= k < 8 => SaturateU16(if k < 4 then a[k] else b[k - 4]))
  }

  /** The bytes with '0' subtracted from each. */
  function LessZero(w: Word): seq<int> {
    seq(8, k requires 0 <= k < 8 => SubEpi8(w[k], ZERO) as int)
  }

  /** Works on sixteen bytes and keeps what the first eight give. */
  function ParseEightDigitsUnrolled(s: seq<byte>, i: nat): nat {
    Tree(LessZero(LoadWord(s, i)) + LessZero(LoadWord(s, i + 8)))
  }

  function Tree(input: seq<int>): nat
    requires |input| == 16
  {
    var t1 := MaddubsEpi16(input, 10);
    var t2 := MaddEpi16(t1, 100);
    var t3 := PackusEpi32(t2, t2);
    var t4 := MaddEpi16(t3, 10000);
    t4[0] % 0x1_0000_0000
  }

  lemma TreeValue(d: seq<int>)
    requires |d| == 16 && forall k :: 0 <= k < 8 ==> 0 <= d[k] <= 9
    ensures Tree(d) == 10000 * (1000 * d[0] + 100 * d[1] + 10 * d[2] + d[3]) + (1000 * d[4] + 100 * d[5] + 10 * d[6] + d[7])
  {
    var t1 := MaddubsEpi16(d, 10);
    assert t1[0] == 10 * d[0] + d[1] && t1[1] == 10 * d[2] + d[3];
    assert t1[2] == 10 * d[4] + d[5] && t1[3] == 10 * d[6] + d[7];
    var t2 := MaddEpi16(t1, 100);
    assert t2[0] == 100 * t1[0] + t1[1] && t2[1] == 100 * t1[2] + t1[3];
    var t3 := PackusEpi32(t2, t2);
    assert t3[0] == t2[0] && t3[1] == t2[1];
    assert MaddEpi16(t3, 10000)[0] == 10000 * t3[0] + t3[1];
  }

  function Four(s: seq<byte>, i: nat): nat {
    1000 * Digit(At(s, i)) + 100 * Digit(At(s, i + 1)) + 10 * Digit(At(s, i + 2)) + Digit(At(s, i + 3))
  }

  lemma TwoDigits(s: seq<byte>, i: nat, v: nat)
    ensures Extend(v, s, i, i + 2) == 100 * v + 10 * Digit(At(s, i)) + Digit(At(s, i + 1))
  {
    assert Extend(v, s, i, i + 1) == 10 * v + Digit(At(s, i));
  }

  lemma FourDigits(s: seq<byte>, i: nat, v: nat)
    ensures Extend(v, s, i, i + 4) == 10000 * v + Four(s, i)
  {
    TwoDigits(s, i, v);
    TwoDigits(s, i + 2, Extend(v, s, i, i + 2));
    ExtendTwice(v, s, i, i + 2, i + 4);
  }

  lemma ExtendEight(v: nat, s: seq<byte>, i: nat)
    ensures Extend(v, s, i, i + 8) == 100_000_000 * v + 10000 * Four(s, i) + Four(s, i + 4)
  {
    FourDigits(s, i, v);
    FourDigits(s, i + 4, Extend(v, s, i, i + 4));
    ExtendTwice(v, s, i, i + 4, i + 8);
  }

  /** On eight digits the tree gives their decimal value. */
  lemma EightDigitsValue(s: seq<byte>, i: nat)
    requires forall k :: i <= k < i + 8 ==> IsDigit(At(s, k))
    ensures ParseEightDigitsUnrolled(s, i) == 10000 * Four(s, i) + Four(s, i + 4)
    ensures ParseEightDigitsUnrolled(s, i) == Extend(0, s, i, i + 8)
  {
    ExtendEight(0, s, i);
    var d := LessZero(LoadWord(s, i)) + LessZero(LoadWord(s, i + 8));
    forall k | 0 <= k < 8 ensures d[k] == Digit(At(s, i + k)) {
      assert IsDigit(LoadWord(s, i)[k]);
    }
    TreeValue(d);
  }
}
