/**
 Machine words as sequences of bits, least significant bit first, with the word operations
 the scanner is built from.
 */
module Masks {

  type Mask = seq<bool>

  function Not(a: Mask): Mask {
    seq(|a|, i requires 0 <= i < |a| => !a[i])
  }

  function And(a: Mask, b: Mask): Mask
    requires |a| == |b|
  {
    seq(|a|, i requires 0 <= i < |a| => a[i] && b[i])
  }

  function Or(a: Mask, b: Mask): Mask
    requires |a| == |b|
  {
    seq(|a|, i requires 0 <= i < |a| => a[i] || b[i])
  }

  function Xor(a: Mask, b: Mask): Mask
    requires |a| == |b|
  {
    seq(|a|, i requires 0 <= i < |a| => a[i] != b[i])
  }

  function Zeros(n: nat): Mask {
    seq(n, _ => false)
  }

  function Ones(n: nat): Mask {
    seq(n, _ => true)
  }

  /** The word whose bit zero is `b`. */
  function Bit(n: nat, b: bool): Mask {
    seq(n, i => i == 0 && b)
  }

  function ShiftLeft1(a: Mask): Mask {
    seq(|a|, i requires 0 <= i < |a| => i > 0 && a[i - 1])
  }

  /** Logical shift right by one less than the width: the top bit moved to bit zero. */
  function TopBit(a: Mask): Mask
    requires |a| > 0
  {
    Bit(|a|, a[|a| - 1])
  }

  /** Arithmetic shift right by one less than the width: the top bit copied everywhere. */
  function SignFill(a: Mask): Mask
    requires |a| > 0
  {
    seq(|a|, _ => a[|a| - 1])
  }

  predicate IsZero(a: Mask) {
    forall i :: 0 <= i < |a| ==> !a[i]
  }

  function Pow2(n: nat): (p: nat)
    ensures p > 0
  {
    if n == 0 then 1 else 2 * Pow2(n - 1)
  }

  /** The unsigned number a word stands for. */
  function Value(a: Mask): nat {
    if a == [] then 0
    else Value(a[..|a| - 1]) + (if a[|a| - 1] then Pow2(|a| - 1) else 0)
  }

  // ----- addition

  /** The carry into position `i` when `a` and `b` are added. */
  function Carry(a: Mask, b: Mask, i: nat): bool
    requires i <= |a| == |b|
  {
    i > 0 && if a[i - 1] == b[i - 1] then a[i - 1] else Carry(a, b, i - 1)
  }

  function WrappingAdd(a: Mask, b: Mask): Mask
    requires |a| == |b|
  {
    seq(|a|, i requires 0 <= i < |a| => (a[i] != b[i]) != Carry(a, b, i))
  }

  predicate AddOverflows(a: Mask, b: Mask)
    requires |a| == |b|
  {
    Carry(a, b, |a|)
  }

  lemma CarryOfPrefix(a: Mask, b: Mask, n: nat, i: nat)
    requires i <= n <= |a| == |b|
    ensures Carry(a[..n], b[..n], i) == Carry(a, b, i)
  {}

  /** The ripple-carry sum is the sum of the numbers, modulo the word size. */
  lemma {:induction false} AddIsAddition(a: Mask, b: Mask)
    requires |a| == |b|
    ensures Value(WrappingAdd(a, b)) + (if AddOverflows(a, b) then Pow2(|a|) else 0) == Value(a) + Value(b)
  {
    if a != [] {
      var n := |a| - 1;
      AddIsAddition(a[..n], b[..n]);
      forall i | 0 <= i <= n ensures Carry(a[..n], b[..n], i) == Carry(a, b, i) {
        CarryOfPrefix(a, b, n, i);
      }
      assert WrappingAdd(a, b)[..n] == WrappingAdd(a[..n], b[..n]);
    }
  }

  // ----- subtraction of one, lowest set bit

  /** Subtracting one flips every bit up to and including the lowest set one. */
  function WrappingSub1(a: Mask): Mask {
    seq(|a|, i requires 0 <= i < |a| => if IsZero(a[..i]) then !a[i] else a[i])
  }

  lemma ZeroValue(a: Mask)
    ensures IsZero(a) <==> Value(a) == 0
    ensures Value(a) < Pow2(|a|)
  {
    if a != [] {
      var n := |a| - 1;
      ZeroValue(a[..n]);
      assert IsZero(a) <==> IsZero(a[..n]) && !a[n];
    }
  }

  lemma {:induction false} Sub1IsSubtraction(a: Mask)
    ensures Value(WrappingSub1(a)) == if Value(a) == 0 then Pow2(|a|) - 1 else Value(a) - 1
  {
    if a != [] {
      var n := |a| - 1;
      Sub1IsSubtraction(a[..n]);
      ZeroValue(a[..n]);
      forall i | 0 <= i < n ensures a[..n][..i] == a[..i] {}
      assert WrappingSub1(a)[..n] == WrappingSub1(a[..n]);
    }
  }

  /** Position of the lowest set bit, or the width when there is none. */
  function TrailingZeros(a: Mask): (n: nat)
    ensures n <= |a|
    ensures n < |a| ==> a[n]
    ensures forall i :: 0 <= i < n ==> !a[i]
  {
    if a == [] then 0
    else if a[0] then 0
    else
      assert forall i :: 0 < i < |a| ==> a[i] == a[1..][i - 1];
      1 + TrailingZeros(a[1..])
  }

  /** Number of set bits. */
  function Hamming(a: Mask): nat {
    if a == [] then 0 else Hamming(a[..|a| - 1]) + (if a[|a| - 1] then 1 else 0)
  }

  /** `a & (a - 1)` clears the lowest set bit and nothing else. */
  lemma ClearLowest(a: Mask)
    requires !IsZero(a)
    ensures And(a, WrappingSub1(a)) == a[TrailingZeros(a) := false]
  {
    var t := TrailingZeros(a);
    forall i | 0 <= i < |a| ensures And(a, WrappingSub1(a))[i] == a[t := false][i] {
      if i > t { assert a[..i][t]; }
    }
  }

  /**
   The "which comes first" test of the string loops: `(b - 1) & q` is nonzero exactly when
   the lowest set bit of `q` lies below the lowest set bit of `b`.
   */
  lemma FirstBefore(b: Mask, q: Mask)
    requires |b| == |q|
    requires forall i :: 0 <= i < |b| ==> !(b[i] && q[i])
    ensures !IsZero(And(WrappingSub1(b), q)) <==> TrailingZeros(q) < TrailingZeros(b)
  {
    var t, u := TrailingZeros(q), TrailingZeros(b);
    var m := And(WrappingSub1(b), q);
    if t < u {
      assert IsZero(b[..t]);
      assert m[t];
    } else {
      forall i | 0 <= i < |m| ensures !m[i] {
        if i > u { assert b[..i][u]; }
      }
    }
  }

  // ----- carry-less multiplication

  /** XOR of `a[j] && b[k - j]` over `j < n`: bit `k` of the carry-less product. */
  function ProductBit(a: Mask, b: Mask, k: nat, n: nat): bool
    requires n <= k + 1 && k < |a| && k < |b|
  {
    n > 0 && (ProductBit(a, b, k, n - 1) != (a[n - 1] && b[k - (n - 1)]))
  }

  /** The low word of the carry-less product. */
  function ClMulLow(a: Mask, b: Mask): Mask
    requires |a| <= |b|
  {
    seq(|a|, k requires 0 <= k < |a| => ProductBit(a, b, k, k + 1))
  }

  /** Whether the number of set bits among the first `n` is odd. */
  function PrefixXor(a: Mask, n: nat): bool
    requires n <= |a|
  {
    n > 0 && (PrefixXor(a, n - 1) != a[n - 1])
  }

  lemma {:induction false} ProductWithOnes(a: Mask, b: Mask, k: nat, n: nat)
    requires n <= k + 1 && k < |a| && k < |b|
    requires b == Ones(|b|)
    ensures ProductBit(a, b, k, n) == PrefixXor(a, n)
  {
    if n > 0 { ProductWithOnes(a, b, k, n - 1); }
  }

  // ----- the set bits in order

  /** The positions of the set bits below `n`, in increasing order. */
  function Positions(a: Mask, n: nat): (p: seq<nat>)
    requires n <= |a|
    ensures |p| <= n
    ensures forall k :: 0 <= k < |p| ==> p[k] < n && a[p[k]]
  {
    if n == 0 then [] else Positions(a, n - 1) + (if a[n - 1] then [n - 1] else [])
  }

  lemma {:induction false} HammingCounts(a: Mask, n: nat)
    requires n <= |a|
    ensures Hamming(a[..n]) == |Positions(a, n)|
  {
    if n > 0 {
      HammingCounts(a, n - 1);
      assert a[..n][..n - 1] == a[..n - 1];
    }
  }

  lemma {:induction false} PositionsOfZero(a: Mask, n: nat)
    requires n <= |a| && IsZero(a[..n])
    ensures Positions(a, n) == []
  {
    if n > 0 {
      assert a[..n][n - 1] == a[n - 1];
      assert forall i :: 0 <= i < n - 1 ==> a[..n - 1][i] == a[..n][i];
      PositionsOfZero(a, n - 1);
    }
  }

  /** Clearing the lowest set bit removes the first position. */
  lemma {:induction false} PositionsTail(a: Mask, n: nat)
    requires n <= |a| && TrailingZeros(a) < n
    ensures Positions(a, n) == [TrailingZeros(a)] + Positions(a[TrailingZeros(a) := false], n)
  {
    var t := TrailingZeros(a);
    var b := a[t := false];
    if n == t + 1 {
      PositionsOfZero(a, t);
      PositionsOfZero(b, n);
    } else {
      PositionsTail(a, n - 1);
    }
  }
}
