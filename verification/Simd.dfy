/** 256-bit vector registers as 32 bytes, with the lane-wise meaning of the instructions used. */
module Simd {
  import opened Bytes
  import opened Masks

  const LANES := 32

  type Register = r: seq<byte> | |r| == LANES witness seq(LANES, _ => 0)

  /** One 64-byte block as it sits in two registers. */
  datatype SimdInput = SimdInput(lo: Register, hi: Register) {
    function Bytes(): (s: seq<byte>)
      ensures |s| == 64
    {
      lo + hi
    }
  }

  function FillInput(s: seq<byte>): (r: SimdInput)
    requires |s| >= 64
    ensures r.Bytes() == s[..64]
  {
    SimdInput(s[..32], s[32..64])
  }

  // ----- bitwise operations on numbers

  function BitAnd(a: nat, b: nat): nat {
    if a == 0 || b == 0 then 0 else 2 * BitAnd(a / 2, b / 2) + (if a % 2 == 1 && b % 2 == 1 then 1 else 0)
  }

  function BitOr(a: nat, b: nat): nat
    decreases a + b
  {
    if a == 0 && b == 0 then 0
    else 2 * BitOr(a / 2, b / 2) + (if a % 2 == 1 || b % 2 == 1 then 1 else 0)
  }

  function BitXor(a: nat, b: nat): nat
    decreases a + b
  {
    if a == 0 && b == 0 then 0 else 2 * BitXor(a / 2, b / 2) + (if a % 2 != b % 2 then 1 else 0)
  }

  lemma BitAndBound(a: nat, b: nat)
    ensures BitAnd(a, b) <= a && BitAnd(a, b) <= b
  {}

  lemma DivModUnique(a: nat, d: nat, q: nat, r: nat)
    requires a == d * q + r && r < d
    ensures a / d == q && a % d == r
  {
    var x, y := a / d, a % d;
    assert d * (x - q) == r - y;
    MulAtLeast(d, x - q);
  }

  lemma MulAtLeast(d: int, k: int)
    requires d >= 0
    ensures k >= 1 ==> d * k >= d
    ensures k <= -1 ==> d * k <= -d
  {}

  lemma HalfRemainder(a: nat, p: nat)
    requires p > 0
    ensures a % (2 * p) == 2 * (a / 2 % p) + a % 2
  {
    var q, r := a / 2 / p, a / 2 % p;
    assert a / 2 == p * q + r;
    assert 2 * p * q == 2 * (p * q);
    DivModUnique(a, 2 * p, q, 2 * r + a % 2);
  }

  /** Masking with `n` low ones is the remainder modulo `2^n`. */
  lemma {:induction false} BitAndLow(a: nat, n: nat)
    ensures BitAnd(a, Pow2(n) - 1) == a % Pow2(n)
  {
    if n > 0 {
      BitAndLow(a / 2, n - 1);
      HalfRemainder(a, Pow2(n - 1));
    }
  }

  lemma BitAnd0f(x: nat)
    ensures BitAnd(x, 0x0f) == x % 16
  {
    BitAndLow(x, 4);
    assert Pow2(4) == 16;
  }

  lemma BitAnd1f(x: nat)
    ensures BitAnd(x, 0x1f) == x % 32
  {
    BitAndLow(x, 5);
    assert Pow2(5) == 32;
  }

  lemma BitAnd7f(x: nat)
    ensures BitAnd(x, 0x7f) == x % 128
  {
    BitAndLow(x, 7);
    assert Pow2(7) == 128;
  }

  lemma BitAndSelf(a: nat)
    ensures BitAnd(a, a) == a
  {}

  lemma BitOrBound(a: nat, b: nat)
    ensures a <= BitOr(a, b) && b <= BitOr(a, b)
    decreases a + b
  {}

  lemma {:induction false} BitOrBelow(a: nat, b: nat, n: nat)
    requires a < Pow2(n) && b < Pow2(n)
    ensures BitOr(a, b) < Pow2(n)
  {
    if n > 0 { BitOrBelow(a / 2, b / 2, n - 1); }
  }

  lemma {:induction false} BitXorZero(a: nat, b: nat)
    ensures BitXor(a, b) == 0 <==> a == b
    decreases a + b
  {
    if a != 0 || b != 0 { BitXorZero(a / 2, b / 2); }
  }

  /** An OR of numbers that share no bit position is their sum. */
  lemma {:induction false} BitOrDisjoint(x: nat, b: nat, n: nat)
    requires b < Pow2(n)
    ensures BitOr(x * Pow2(n), b) == x * Pow2(n) + b
  {
    if n == 0 {
      BitOrZero(x);
    } else {
      var h := x * Pow2(n - 1);
      assert x * Pow2(n) == 2 * h;
      BitOrDisjoint(x, b / 2, n - 1);
    }
  }

  /** An OR with a number whose last `n` bits are zero takes those of the other and joins the rest. */
  lemma {:induction false} BitOrShifted(x: nat, y: nat, r: nat, n: nat)
    requires r < Pow2(n)
    ensures BitOr(x * Pow2(n), y * Pow2(n) + r) == BitOr(x, y) * Pow2(n) + r
  {
    if n > 0 {
      var p := Pow2(n - 1);
      BitOrShifted(x, y, r / 2, n - 1);
      Doubled(x, p);
      Doubled(y, p);
      Doubled(BitOr(x, y), p);
      BitOrOneMore(x * p, y * p + r / 2, r % 2);
    }
  }

  lemma Doubled(x: nat, p: nat)
    ensures x * (2 * p) == 2 * (x * p)
  {}

  lemma BitOrOneMore(a: nat, b: nat, e: nat)
    requires e < 2
    ensures BitOr(2 * a, 2 * b + e) == 2 * BitOr(a, b) + e
  {
    assert 2 * a / 2 == a && (2 * b + e) / 2 == b;
    if a == 0 && b == 0 { assert e == 0 || BitOr(0, 0) == 0; }
  }

  lemma BitOrZero(a: nat)
    ensures BitOr(a, 0) == a
  {}

  // ----- unaligned loads

  /** The little-endian number in the `n` bytes from `i` on. */
  function Load(s: seq<byte>, i: nat, n: nat): nat
    decreases n
  {
    if n == 0 then 0 else At(s, i) + 256 * Load(s, i + 1, n - 1)
  }

  /** One byte more comes in at the top. */
  lemma {:induction false} LoadTop(s: seq<byte>, i: nat, n: nat)
    ensures Load(s, i, n + 1) == Load(s, i, n) + Pow256(n) * At(s, i + n)
    decreases n
  {
    if n > 0 {
      LoadTop(s, i + 1, n - 1);
      var p, b := Pow256(n - 1), At(s, i + n);
      assert Pow256(n) == 256 * p;
      Times256(p, b);
    }
  }

  lemma Times256(p: nat, b: nat)
    ensures 256 * p * b == 256 * (p * b)
  {}

  function Pow256(n: nat): nat {
    if n == 0 then 1 else 256 * Pow256(n - 1)
  }

  // ----- lane-wise instructions

  function Signed(b: byte): int {
    if b < 128 then b else b - 256
  }

  function AddByte(x: nat, y: nat): byte {
    (x + y) % 256
  }

  function Set1(b: byte): Register {
    seq(LANES, _ => b)
  }

  function AllBits(c: bool): byte {
    if c then 0xff else 0
  }

  function OrEpi8(a: Register, b: Register): Register {
    seq(LANES, i requires 0 <= i < LANES => BitOr8(a[i], b[i]))
  }

  function BitOr8(a: byte, b: byte): (r: byte)
    ensures r == 0 <==> a == 0 && b == 0
  {
    BitOrBelow(a, b, 8);
    BitOrBound(a, b);
    BitOr(a, b)
  }

  function AndEpi8(a: Register, b: Register): Register {
    seq(LANES, i requires 0 <= i < LANES => BitAnd8(a[i], b[i]))
  }

  function BitAnd8(a: byte, b: byte): byte {
    BitAndBound(a, b);
    BitAnd(a, b)
  }

  function CmpEq(a: Register, b: Register): Register {
    seq(LANES, i requires 0 <= i < LANES => AllBits(a[i] == b[i]))
  }

  /** Signed greater-than. */
  function CmpGt(a: Register, b: Register): Register {
    seq(LANES, i requires 0 <= i < LANES => AllBits(Signed(a[i]) > Signed(b[i])))
  }

  /** Unsigned maximum. */
  function MaxEpu8(a: Register, b: Register): Register {
    seq(LANES, i requires 0 <= i < LANES => if a[i] < b[i] then b[i] else a[i])
  }

  /** Unsigned subtraction that stops at zero. */
  function SubsEpu8(a: Register, b: Register): Register {
    seq(LANES, i requires 0 <= i < LANES => if a[i] < b[i] then 0 else a[i] - b[i])
  }

  function AddEpi8(a: Register, b: Register): Register {
    seq(LANES, i requires 0 <= i < LANES => AddByte(a[i], b[i]))
  }

  /** The top bit of every lane. */
  function Movemask(a: Register): Mask {
    seq(LANES, i requires 0 <= i < LANES => a[i] >= 128)
  }

  /** Whether no lane has a bit in common with `b`. */
  predicate TestZ(a: Register, b: Register) {
    forall i :: 0 <= i < LANES ==> BitAnd(a[i], b[i]) == 0
  }

  /** Table lookup within each half: a lane with its top bit set gives zero, else its low four bits index. */
  function ShuffleEpi8(table: Register, index: Register): Register {
    seq(LANES, i requires 0 <= i < LANES =>
            if index[i] >= 128 then 0 else table[(if i < 16 then 0 else 16) + index[i] % 16])
  }

  /** A table of 16 bytes, repeated in both halves. */
  function Both(table: seq<byte>): Register
    requires |table| == 16
  {
    table + table
  }

  lemma ShuffleBoth(table: seq<byte>, index: Register, i: nat)
    requires |table| == 16 && i < LANES
    ensures ShuffleEpi8(Both(table), index)[i] == if index[i] >= 128 then 0 else table[index[i] % 16]
  {}

  /** 32-bit lanes shifted right by four: each byte takes in low bits of the next byte of its word. */
  function SrliEpi32By4(a: Register): Register {
    seq(LANES, i requires 0 <= i < LANES => a[i] / 16 + (if i % 4 == 3 then 0 else a[i + 1] % 16 * 16))
  }

  /** 16-bit lanes shifted right by four. */
  function SrliEpi16By4(a: Register): Register {
    seq(LANES, i requires 0 <= i < LANES => a[i] / 16 + (if i % 2 == 1 then 0 else a[i + 1] % 16 * 16))
  }

  /** The high nibble a byte leaves in its lane, whatever comes in from the next byte above it. */
  lemma NibbleSurvives(b: byte, next: byte)
    ensures (b / 16 + next % 16 * 16) % 16 == b / 16
    ensures (b / 16 + next % 16 * 16) % 128 % 16 == b / 16
  {
    var h, n := b / 16, next % 16;
    var x := h + 16 * n;
    DivModUnique(x, 16, n, h);
    DivModUnique(x % 128, 16, n - 8 * (x / 128), h);
  }

  /** `b` moved up by `n` lanes, with the last `n` lanes of `a` in front. */
  function PushLast(a: Register, b: Register, n: nat): Register
    requires n <= LANES
  {
    a[LANES - n..] + b[..LANES - n]
  }
}
