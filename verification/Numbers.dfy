/** Numbers: the grammar of section 6 of RFC 8259, its reading at a position, and what a literal stands for. */
module Numbers {
  import opened Bytes

  // ----- the grammar

  predicate IsDigits(w: seq<byte>) {
    w != [] && forall k :: 0 <= k < |w| ==> IsDigit(w[k])
  }

  predicate IsInt(w: seq<byte>) {
    w == [ZERO] || (IsDigits(w) && w[0] != ZERO)
  }

  predicate IsFrac(w: seq<byte>) {
    w == [] || (w[0] == PERIOD && IsDigits(w[1..]))
  }

  predicate IsExp(w: seq<byte>) {
    w == [] || (IsE(w[0]) && (IsDigits(w[1..]) || (|w| > 1 && IsSign(w[1]) && IsDigits(w[2..]))))
  }

  predicate IsE(b: byte) {
    b == LOWER_E || b == UPPER_E
  }

  predicate IsSign(b: byte) {
    b == PLUS || b == MINUS
  }

  lemma SignsSpelled(b: byte)
    ensures IsE(b) <==> b in Latin("eE")
    ensures IsSign(b) <==> b in Latin("+-")
  {
    assert Latin("eE") == [0x65, 0x45] && Latin("+-") == [0x2b, 0x2d];
  }

  /** An integer part of length `a`, then a fraction up to `b`, then an exponent. */
  predicate Splits(w: seq<byte>, a: nat, b: nat) {
    a <= b <= |w| && IsInt(w[..a]) && IsFrac(w[a..b]) && IsExp(w[b..])
  }

  /** A number without its sign. */
  ghost predicate IsUnsigned(w: seq<byte>) {
    exists a: nat, b: nat :: Splits(w, a, b)
  }

  ghost predicate IsNumber(w: seq<byte>) {
    IsUnsigned(w) || (w != [] && w[0] == MINUS && IsUnsigned(w[1..]))
  }

  // ----- reading a literal

  /** The first position from `i` on that holds no digit. */
  function DigitsEnd(s: seq<byte>, i: nat): (j: nat)
    ensures i <= j && !IsDigit(At(s, j))
    ensures forall k :: i <= k < j ==> IsDigit(At(s, k))
    ensures j > i ==> j <= |s|
    decreases if i <= |s| then |s| - i else 0
  {
    if IsDigit(At(s, i)) then DigitsEnd(s, i + 1) else i
  }

  /** Where the parts of a literal end: no fraction or no exponent when two ends coincide. */
  datatype Literal = Literal(intEnd: nat, fracEnd: nat, end: nat)

  function IntEnd(s: seq<byte>, p: nat): Option<nat> {
    if At(s, p) == ZERO then Some(p + 1)
    else if IsDigit(At(s, p)) then Some(DigitsEnd(s, p + 1))
    else None
  }

  function FracEnd(s: seq<byte>, p: nat): Option<nat> {
    if At(s, p) != PERIOD then Some(p)
    else if IsDigit(At(s, p + 1)) then Some(DigitsEnd(s, p + 2))
    else None
  }

  /** Where the digits of the exponent start that begins at `p`. */
  function ExpDigits(s: seq<byte>, p: nat): nat {
    if IsSign(At(s, p + 1)) then p + 2 else p + 1
  }

  function ExpEnd(s: seq<byte>, p: nat): Option<nat> {
    if !IsE(At(s, p)) then Some(p)
    else if IsDigit(At(s, ExpDigits(s, p))) then Some(DigitsEnd(s, ExpDigits(s, p) + 1))
    else None
  }

  /** The literal at position `p`, past the sign, if a terminator follows it. */
  function LiteralAt(s: seq<byte>, p: nat): Option<Literal> {
    match IntEnd(s, p)
    case None => None
    case Some(a) =>
      match FracEnd(s, a)
      case None => None
      case Some(b) =>
        match ExpEnd(s, b)
        case None => None
        case Some(e) => if IsTerminator(At(s, e)) then Some(Literal(a, b, e)) else None
  }

  lemma DigitsEndIs(s: seq<byte>, i: nat, j: nat)
    requires i <= j && !IsDigit(At(s, j)) && forall k :: i <= k < j ==> IsDigit(At(s, k))
    ensures DigitsEnd(s, i) == j
  {}

  lemma IsDigitsAt(s: seq<byte>, i: nat, j: nat)
    requires i <= j <= |s|
    ensures IsDigits(s[i..j]) <==> i < j && forall k :: i <= k < j ==> IsDigit(At(s, k))
  {
    if IsDigits(s[i..j]) {
      forall k | i <= k < j ensures IsDigit(At(s, k)) { assert s[i..j][k - i] == At(s, k); }
    } else if i < j {
      var k :| 0 <= k < j - i && !IsDigit(s[i..j][k]);
      assert !IsDigit(At(s, i + k));
    }
  }

  lemma SplitsAt(s: seq<byte>, p: nat, a: nat, b: nat, e: nat)
    requires p <= a <= b <= e <= |s|
    ensures Splits(s[p..e], a - p, b - p) <==> IsInt(s[p..a]) && IsFrac(s[a..b]) && IsExp(s[b..e])
  {
    Reslice(s, p, e, p, a);
    Reslice(s, p, e, a, b);
    Reslice(s, p, e, b, e);
    assert s[p..e][..a - p] == s[p..e][0..a - p] && s[p..e][b - p..] == s[p..e][b - p..e - p];
  }

  lemma Reslice(s: seq<byte>, p: nat, e: nat, i: nat, j: nat)
    requires p <= i <= j <= e <= |s|
    ensures s[p..e][i - p..j - p] == s[i..j]
  {
    var u, v := s[p..e][i - p..j - p], s[i..j];
    forall k | 0 <= k < |u| ensures u[k] == v[k] {}
  }

  /** What is read is what the grammar derives, and the grammar leaves no choice of where it ends. */
  lemma LiteralReads(s: seq<byte>, p: nat)
    requires LiteralAt(s, p).Some?
    ensures var e := LiteralAt(s, p).value.end; p < e <= |s| && IsUnsigned(s[p..e])
  {
    var l := LiteralAt(s, p).value;
    IntReads(s, p, l.intEnd);
    FracReads(s, l.intEnd, l.fracEnd);
    ExpReads(s, l.fracEnd, l.end);
    SplitsAt(s, p, l.intEnd, l.fracEnd, l.end);
    assert Splits(s[p..l.end], l.intEnd - p, l.fracEnd - p);
  }

  lemma IntReads(s: seq<byte>, p: nat, a: nat)
    requires IntEnd(s, p) == Some(a)
    ensures p < a <= |s| && IsInt(s[p..a])
  {
    IsDigitsAt(s, p, a);
  }

  lemma FracReads(s: seq<byte>, a: nat, b: nat)
    requires FracEnd(s, a) == Some(b) && a <= |s|
    ensures a <= b <= |s| && IsFrac(s[a..b])
  {
    if a < b {
      IsDigitsAt(s, a + 1, b);
      assert s[a..b][1..] == s[a + 1..b];
    }
  }

  lemma ExpReads(s: seq<byte>, b: nat, e: nat)
    requires ExpEnd(s, b) == Some(e) && b <= |s|
    ensures b <= e <= |s| && IsExp(s[b..e])
  {
    if b < e {
      var d := ExpDigits(s, b);
      IsDigitsAt(s, d, e);
      assert s[b..e][d - b..] == s[d..e];
    }
  }

  lemma GrammarReads(s: seq<byte>, p: nat, e: nat)
    requires p <= e <= |s| && IsUnsigned(s[p..e]) && IsTerminator(At(s, e))
    ensures LiteralAt(s, p).Some? && LiteralAt(s, p).value.end == e
  {
    var w := s[p..e];
    var i: nat, j: nat :| Splits(w, i, j);
    var a, b := p + i, p + j;
    SplitsAt(s, p, a, b, e);
    PartsAreRead(s, p, a, b, e);
  }

  lemma PartsAreRead(s: seq<byte>, p: nat, a: nat, b: nat, e: nat)
    requires p <= a <= b <= e <= |s| && IsTerminator(At(s, e))
    requires IsInt(s[p..a]) && IsFrac(s[a..b]) && IsExp(s[b..e])
    ensures LiteralAt(s, p) == Some(Literal(a, b, e))
  {
    ExpIsRead(s, b, e);
    FracIsRead(s, a, b, e);
    IntIsRead(s, p, a);
  }

  lemma ExpIsRead(s: seq<byte>, b: nat, e: nat)
    requires b <= e <= |s| && IsExp(s[b..e]) && IsTerminator(At(s, e))
    ensures ExpEnd(s, b) == Some(e) && !IsDigit(At(s, b)) && At(s, b) != PERIOD
  {
    if b < e {
      var w := s[b..e];
      var d := if IsDigits(w[1..]) then b + 1 else b + 2;
      assert w[d - b..] == s[d..e] && w[0] == At(s, b);
      assert d == b + 2 ==> w[1] == At(s, b + 1);
      IsDigitsAt(s, d, e);
      DigitsEndIs(s, d + 1, e);
    }
  }

  lemma FracIsRead(s: seq<byte>, a: nat, b: nat, e: nat)
    requires a <= b <= e <= |s| && IsFrac(s[a..b]) && ExpEnd(s, b) == Some(e)
    requires !IsDigit(At(s, b)) && At(s, b) != PERIOD
    ensures FracEnd(s, a) == Some(b) && !IsDigit(At(s, a))
  {
    if a < b {
      var w := s[a..b];
      assert w[1..] == s[a + 1..b] && w[0] == At(s, a);
      IsDigitsAt(s, a + 1, b);
      DigitsEndIs(s, a + 2, b);
    }
  }

  lemma IntIsRead(s: seq<byte>, p: nat, a: nat)
    requires p <= a <= |s| && IsInt(s[p..a]) && !IsDigit(At(s, a))
    ensures IntEnd(s, p) == Some(a)
  {
    var w := s[p..a];
    assert w[0] == At(s, p);
    if w != [ZERO] {
      IsDigitsAt(s, p, a);
      DigitsEndIs(s, p + 1, a);
    }
  }

  /** The reading accepts exactly the unsigned numbers of the grammar that a terminator follows. */
  lemma LiteralExact(s: seq<byte>, p: nat, e: nat)
    requires p <= e <= |s|
    ensures LiteralAt(s, p).Some? && LiteralAt(s, p).value.end == e <==> IsUnsigned(s[p..e]) && IsTerminator(At(s, e))
  {
    if LiteralAt(s, p).Some? && LiteralAt(s, p).value.end == e { LiteralReads(s, p); }
    if IsUnsigned(s[p..e]) && IsTerminator(At(s, e)) { GrammarReads(s, p, e); }
  }

  // ----- what a literal stands for

  datatype Number = F64(f: real) | I64(i: int)

  /** The value of a decimal digit. */
  function Digit(b: byte): (d: nat)
    ensures d <= 9
  {
    if IsDigit(b) then b - ZERO else 0
  }

  /** `v` followed by the decimal digits at positions `[i..j)`. */
  function Extend(v: nat, s: seq<byte>, i: nat, j: nat): nat
    decreases j - i
  {
    if i >= j then v else 10 * Extend(v, s, i, j - 1) + Digit(At(s, j - 1))
  }

  /** Ten to the power of `e`. */
  function Pow10(e: int): (r: real)
    ensures r > 0.0
    decreases if e < 0 then -e else e
  {
    if e == 0 then 1.0 else if e > 0 then 10.0 * Pow10(e - 1) else Pow10(e + 1) / 10.0
  }

  function Power10(n: nat): (r: nat)
    ensures r > 0
  {
    if n == 0 then 1 else 10 * Power10(n - 1)
  }

  /** All digits of the literal that starts at `p`, without the period. */
  function Mantissa(s: seq<byte>, p: nat, l: Literal): nat {
    Extend(Extend(0, s, p, l.intEnd), s, l.intEnd + 1, l.fracEnd)
  }

  function Signed(negative: bool, v: int): int {
    if negative then -v else v
  }

  /** The exponent written in `[b..e)`, 0 when there is none. */
  function ExponentIn(s: seq<byte>, b: nat, e: nat): int {
    if e == b then 0 else Signed(At(s, b + 1) == MINUS, Extend(0, s, ExpDigits(s, b), e))
  }

  function Exponent(s: seq<byte>, l: Literal): int {
    ExponentIn(s, l.fracEnd, l.end)
  }

  /** Number of digits of the fraction in `[a..b)`. */
  function DigitsIn(a: nat, b: nat): nat {
    if b <= a then 0 else b - a - 1
  }

  function FracDigits(l: Literal): nat {
    DigitsIn(l.intEnd, l.fracEnd)
  }

  const U64_SIZE := 0x1_0000_0000_0000_0000
  const I64_SIZE := 0x8000_0000_0000_0000

  /**
   What the literal stands for: an integer when it has no fraction and no exponent, or an exponent of
   zero; otherwise the exact rational.
   */
  function Meaning(s: seq<byte>, p: nat, negative: bool, l: Literal): Number {
    var m, fd, e := Mantissa(s, p, l), FracDigits(l), Exponent(s, l);
    if fd == 0 && e == 0 then I64(Signed(negative, m)) else Scaled(negative, m, e - fd)
  }

  /** `m` times ten to the power of `e`. */
  function Scaled(negative: bool, m: nat, e: int): Number {
    F64(if negative then -Times(m as real, Pow10(e)) else Times(m as real, Pow10(e)))
  }

  function Times(a: real, b: real): real {
    a * b
  }

  /** Adding the digits `[i..j)` one by one in a wrapping 64-bit word: no single addition carries out. */
  predicate NoCarry(s: seq<byte>, i: nat, j: nat)
    decreases j - i
  {
    i >= j || (NoCarry(s, i, j - 1) && 10 * Extend(0, s, i, j - 1) % 0x1_0000_0000_0000_0000 + Digit(At(s, j - 1)) < U64_SIZE)
  }

  /** The literals the parser accepts, of those that are numbers. `p` is 1 after a minus sign, else 0. */
  predicate InRange(s: seq<byte>, p: nat, negative: bool, l: Literal) {
    var m, fd, e := Mantissa(s, p, l), FracDigits(l), Exponent(s, l);
    && NoCarry(s, p, l.intEnd)
    && (l.end > l.fracEnd ==> l.end - ExpDigits(s, l.fracEnd) <= 3)
    && (if fd == 0 && e == 0 then
          l.end < 18 || (l.end == l.fracEnd && (if negative then m <= I64_SIZE else m < I64_SIZE))
        else if l.intEnd + fd >= 19 then -308 <= e <= 308
        else m == 0 || -308 <= e - fd <= 308)
  }

  // ----- arithmetic of digits

  lemma {:induction false} ExtendBound(v: nat, s: seq<byte>, i: nat, j: nat)
    requires i <= j
    ensures v * Power10(j - i) <= Extend(v, s, i, j) < (v + 1) * Power10(j - i)
    decreases j
  {
    if i < j {
      ExtendBound(v, s, i, j - 1);
      var q := Power10(j - 1 - i);
      assert Power10(j - i) == 10 * q;
      TenTimes(v, q);
      TenTimes(v + 1, q);
      OneDigitMore(v * q, Extend(v, s, i, j - 1), (v + 1) * q, Digit(At(s, j - 1)));
    }
  }

  lemma TenTimes(v: nat, q: nat)
    ensures v * (10 * q) == 10 * (v * q)
  {}

  lemma OneDigitMore(lo: nat, e: nat, hi: nat, d: nat)
    requires lo <= e < hi && d < 10
    ensures 10 * lo <= 10 * e + d < 10 * hi
  {}

  lemma {:induction false} ExtendTwice(v: nat, s: seq<byte>, i: nat, j: nat, k: nat)
    requires i <= j <= k
    ensures Extend(Extend(v, s, i, j), s, j, k) == Extend(v, s, i, k)
    decreases k
  {
    if j < k { ExtendTwice(v, s, i, j, k - 1); }
  }

  lemma {:induction false} ExtendGrows(v: nat, s: seq<byte>, i: nat, j: nat, k: nat)
    requires j <= k
    ensures Extend(v, s, i, j) <= Extend(v, s, i, k)
    decreases k
  {
    if j < k { ExtendGrows(v, s, i, j, k - 1); }
  }

  /** The digits in front count by their place. */
  lemma {:induction false} ExtendSplit(v: nat, s: seq<byte>, i: nat, j: nat)
    requires i <= j
    ensures Extend(v, s, i, j) == v * Power10(j - i) + Extend(0, s, i, j)
    decreases j
  {
    if i < j {
      ExtendSplit(v, s, i, j - 1);
      var q := Power10(j - 1 - i);
      assert Power10(j - i) == 10 * q;
      TenTimes(v, q);
    }
  }

  lemma {:induction false} PowerMonotone(a: nat, b: nat)
    requires a <= b
    ensures Power10(a) <= Power10(b)
    decreases b
  {
    if a < b { PowerMonotone(a, b - 1); }
  }

  lemma Power18()
    ensures Power10(17) == 100_000_000_000_000_000 && Power10(18) == 1_000_000_000_000_000_000
    ensures Power10(19) == 10_000_000_000_000_000_000
  {
    assert Power10(4) == 10_000;
    assert Power10(8) == 10_000 * Power10(4);
    assert Power10(12) == 10_000 * Power10(8);
    assert Power10(16) == 10_000 * Power10(12);
  }

  lemma ShortBound(s: seq<byte>, i: nat, j: nat)
    requires i <= j <= i + 19
    ensures Extend(0, s, i, j) < U64_SIZE
  {
    ExtendBound(0, s, i, j);
    PowerMonotone(j - i, 19);
    Power18();
  }

  /** Up to 19 digits fit a 64-bit word, so none of the additions carries. */
  lemma {:induction false} ShortNoCarry(s: seq<byte>, i: nat, j: nat)
    requires i <= j <= i + 19
    ensures NoCarry(s, i, j)
    decreases j
  {
    if i < j {
      ShortNoCarry(s, i, j - 1);
      ShortBound(s, i, j);
      var v := 10 * Extend(0, s, i, j - 1);
      assert v < U64_SIZE;
    }
  }

  /** One step of ten on either side. */
  lemma Pow10Step(e: int)
    ensures Pow10(e + 1) == 10.0 * Pow10(e)
  {}

  /** Moving the period: dividing by ten to the `n` first makes no difference. */
  lemma {:induction false} Pow10Shift(e: int, n: nat)
    ensures Times(Pow10(e - n), Power10(n) as real) == Pow10(e)
  {
    if n > 0 {
      Pow10Shift(e, n - 1);
      Pow10Step(e - n);
      TenAcross(Pow10(e - n), Power10(n - 1));
    }
  }

  lemma TenAcross(a: real, q: nat)
    ensures Times(a, (10 * q) as real) == Times(10.0 * a, q as real)
  {
    assert (10 * q) as real == 10.0 * q as real;
  }

  // ----- a literal depends on its own bytes

  /** The two agree on the first `n` bytes. */
  predicate SameUpTo(s: seq<byte>, t: seq<byte>, n: nat) {
    n <= |s| && n <= |t| && s[..n] == t[..n]
  }

  lemma {:induction false} ExtendSame(v: nat, s: seq<byte>, t: seq<byte>, i: nat, j: nat, n: nat)
    requires SameUpTo(s, t, n) && j <= n
    ensures Extend(v, s, i, j) == Extend(v, t, i, j)
    decreases j
  {
    if i < j {
      ExtendSame(v, s, t, i, j - 1, n);
      assert s[..n][j - 1] == t[..n][j - 1];
    }
  }

  lemma {:induction false} NoCarrySame(s: seq<byte>, t: seq<byte>, i: nat, j: nat, n: nat)
    requires SameUpTo(s, t, n) && j <= n
    ensures NoCarry(s, i, j) == NoCarry(t, i, j)
    decreases j
  {
    if i < j {
      NoCarrySame(s, t, i, j - 1, n);
      ExtendSame(0, s, t, i, j - 1, n);
      assert s[..n][j - 1] == t[..n][j - 1];
    }
  }

  lemma ExponentSame(s: seq<byte>, t: seq<byte>, l: Literal)
    requires SameUpTo(s, t, l.end) && (l.fracEnd == l.end || l.fracEnd + 1 < l.end)
    ensures Exponent(s, l) == Exponent(t, l)
    ensures l.fracEnd < l.end ==> ExpDigits(s, l.fracEnd) == ExpDigits(t, l.fracEnd)
  {
    if l.fracEnd < l.end {
      assert s[..l.end][l.fracEnd + 1] == t[..l.end][l.fracEnd + 1];
      ExtendSame(0, s, t, ExpDigits(s, l.fracEnd), l.end, l.end);
    }
  }

  lemma MantissaSame(s: seq<byte>, t: seq<byte>, p: nat, l: Literal)
    requires SameUpTo(s, t, l.end) && l.intEnd <= l.fracEnd <= l.end
    ensures Mantissa(s, p, l) == Mantissa(t, p, l)
  {
    ExtendSame(0, s, t, p, l.intEnd, l.end);
    ExtendSame(Extend(0, s, p, l.intEnd), s, t, l.intEnd + 1, l.fracEnd, l.end);
  }

  /** The same literal followed by another terminator is read, judged and valued the same. */
  lemma LiteralSame(s: seq<byte>, t: seq<byte>, p: nat, negative: bool)
    requires LiteralAt(s, p).Some?
    requires SameUpTo(s, t, LiteralAt(s, p).value.end) && IsTerminator(At(t, LiteralAt(s, p).value.end))
    ensures var l := LiteralAt(s, p).value;
            && LiteralAt(t, p) == Some(l) && InRange(t, p, negative, l) == InRange(s, p, negative, l)
            && Meaning(t, p, negative, l) == Meaning(s, p, negative, l)
  {
    var l := LiteralAt(s, p).value;
    PartsSame(s, t, p, l);
    NoCarrySame(s, t, p, l.intEnd, l.end);
    ExponentSame(s, t, l);
    MantissaSame(s, t, p, l);
  }

  lemma PartsSame(s: seq<byte>, t: seq<byte>, p: nat, l: Literal)
    requires LiteralAt(s, p) == Some(l) && SameUpTo(s, t, l.end) && IsTerminator(At(t, l.end))
    ensures LiteralAt(t, p) == Some(l) && p < l.intEnd <= l.fracEnd <= l.end
    ensures l.fracEnd == l.end || l.fracEnd + 1 < l.end
  {
    IntReads(s, p, l.intEnd);
    FracReads(s, l.intEnd, l.fracEnd);
    ExpReads(s, l.fracEnd, l.end);
    SliceSame(s, t, l.end, p, l.intEnd);
    SliceSame(s, t, l.end, l.intEnd, l.fracEnd);
    SliceSame(s, t, l.end, l.fracEnd, l.end);
    PartsAreRead(t, p, l.intEnd, l.fracEnd, l.end);
  }

  lemma SliceSame(s: seq<byte>, t: seq<byte>, n: nat, i: nat, j: nat)
    requires SameUpTo(s, t, n) && i <= j <= n
    ensures s[i..j] == t[i..j]
  {
    assert s[i..j] == s[..n][i..j] && t[i..j] == t[..n][i..j];
  }

  // ----- what a literal amounts to, over the integers

  /** Upwards the powers are the integers. */
  lemma {:induction false} Pow10Up(n: nat)
    ensures Pow10(n) == Power10(n) as real
  {
    if n > 0 { Pow10Up(n - 1); }
  }

  /** Downwards they are their inverses. */
  lemma Pow10Down(n: nat)
    ensures Times(Pow10(-(n as int)), Power10(n) as real) == 1.0
  {
    Pow10Shift(0, n);
    Pow10Up(0);
  }

  predicate IsRatio(x: real, n: int, d: nat) {
    x * d as real == n as real
  }

  /** `x` times ten to the `down` is the digits times ten to the `up`, with the sign. */
  predicate Amounts(x: real, negative: bool, digits: nat, up: nat, down: nat) {
    var n: int := digits * Power10(up);
    IsRatio(x, if negative then -n else n, Power10(down))
  }

  lemma ScaledAmounts(negative: bool, m: nat, up: nat, down: nat)
    ensures Amounts(Scaled(negative, m, up - down).f, negative, m, up, down)
  {
    var q := Pow10(up - down);
    Pow10Shift(up, down);
    Pow10Up(up);
    RatioOf(m, q, Power10(up), Power10(down));
    RatioNegated(Times(m as real, q), m * Power10(up), Power10(down));
  }

  lemma RatioOf(m: nat, q: real, u: nat, d: nat)
    requires Times(q, d as real) == u as real
    ensures IsRatio(Times(m as real, q), m * u, d)
  {
    TimesTwice(m as real, q, d as real);
    RealProduct(m, u);
  }

  lemma TimesTwice(a: real, b: real, c: real)
    ensures Times(a, b) * c == Times(a, Times(b, c))
  {}

  lemma RealProduct(m: nat, u: nat)
    ensures Times(m as real, u as real) == (m * u) as real
  {}

  lemma RatioNegated(x: real, n: int, d: nat)
    requires IsRatio(x, n, d)
    ensures IsRatio(-x, -n, d)
  {}

  /** The number the exponent's digits spell in `[b..e)`, without its sign. */
  function ExponentSize(s: seq<byte>, b: nat, e: nat): nat {
    if b == e then 0
    else Extend(0, s, if At(s, b + 1) == MINUS || At(s, b + 1) == PLUS then b + 2 else b + 1, e)
  }

  /**
   A number whose parts are `[p..a)`, `[a..b)` and `[b..e)` stands for an integer exactly if it has no fraction
   and an exponent of zero; either way it amounts to its digits, as many places up or down as the exponent says,
   and as many down as the fraction has digits.
   */
  lemma MeaningExact(s: seq<byte>, p: nat, negative: bool, a: nat, b: nat, e: nat)
    requires p <= a <= b <= e <= |s| && IsInt(s[p..a]) && IsFrac(s[a..b]) && IsExp(s[b..e])
    ensures var v := Meaning(s, p, negative, Literal(a, b, e));
            var digits: int, size: int := Extend(Extend(0, s, p, a), s, a + 1, b), ExponentSize(s, b, e);
            var lower := b < e && At(s, b + 1) == MINUS;
            && (v.I64? <==> a == b && size == 0)
            && (v.I64? ==> v.i == if negative then -digits else digits)
            && (v.F64? ==> Amounts(v.f, negative, digits, if lower then 0 else size,
                                   (if a < b then b - a - 1 else 0) + (if lower then size else 0)))
  {
    var l := Literal(a, b, e);
    var digits: int, size: int := Extend(Extend(0, s, p, a), s, a + 1, b), ExponentSize(s, b, e);
    var lower := b < e && At(s, b + 1) == MINUS;
    var fd := if a < b then b - a - 1 else 0;
    assert Exponent(s, l) == if lower then -size else size;
    assert Mantissa(s, p, l) == digits && FracDigits(l) == fd;
    FracDigitsExact(s, a, b);
    var up, down := if lower then 0 else size, fd + (if lower then size else 0);
    assert Exponent(s, l) - fd == up - down;
    ScaledAmounts(negative, digits, up, down);
  }

  lemma FracDigitsExact(s: seq<byte>, a: nat, b: nat)
    requires a <= b <= |s| && IsFrac(s[a..b])
    ensures a < b ==> b - a - 1 > 0
  {
    if a < b { assert |s[a..b][1..]| == b - a - 1; }
  }

  // ----- which legal numbers are accepted

  /** Without leading zeros, more digits make a larger number. */
  lemma IntDigits(s: seq<byte>, p: nat, a: nat)
    requires IntEnd(s, p) == Some(a)
    ensures p < a && (a == p + 1 || Extend(0, s, p, a) >= Power10(a - p - 1))
  {
    if At(s, p) != ZERO {
      var v := Digit(At(s, p));
      assert Extend(0, s, p, p + 1) == v;
      ExtendBound(v, s, p + 1, a);
      ExtendTwice(0, s, p, p + 1, a);
      AtLeastOnce(v, Power10(a - p - 1));
    }
  }

  lemma AtLeastOnce(v: nat, q: nat)
    requires v >= 1
    ensures v * q >= q
  {}

  lemma IntegerSize(s: seq<byte>, p: nat, a: nat)
    requires IntEnd(s, p) == Some(a)
    ensures p < a
    ensures a - p <= 18 ==> Extend(0, s, p, a) < I64_SIZE
    ensures a - p >= 20 ==> Extend(0, s, p, a) > I64_SIZE
  {
    IntDigits(s, p, a);
    Power18();
    if a - p <= 18 {
      ExtendBound(0, s, p, a);
      PowerMonotone(a - p, 18);
    } else if a - p >= 20 {
      PowerMonotone(19, a - p - 1);
    }
  }

  /** A plain integer is accepted exactly when it fits 64 bits with a sign, and stands for itself. */
  lemma PlainIntegerExact(s: seq<byte>, p: nat, negative: bool, l: Literal)
    requires p <= 1 && LiteralAt(s, p) == Some(l) && l.end == l.intEnd
    ensures var v := Signed(negative, Extend(0, s, p, l.end));
            Meaning(s, p, negative, l) == I64(v)
            && (InRange(s, p, negative, l) <==> (if negative then -I64_SIZE <= v else v < I64_SIZE))
  {
    IntegerSize(s, p, l.end);
    assert Mantissa(s, p, l) == Extend(0, s, p, l.end);
    if l.end - p <= 19 { ShortNoCarry(s, p, l.end); }
  }

  /** Whatever is accepted is a number of the grammar followed by a terminator. */
  lemma AcceptedIsNumber(s: seq<byte>, negative: bool)
    requires LiteralAt(s, if negative then 1 else 0).Some? && (negative ==> s != [] && s[0] == MINUS)
    ensures var e := LiteralAt(s, if negative then 1 else 0).value.end;
            e <= |s| && IsNumber(s[..e]) && IsTerminator(At(s, e))
  {
    var p := if negative then 1 else 0;
    LiteralReads(s, p);
    var e := LiteralAt(s, p).value.end;
    assert negative ==> s[..e][1..] == s[1..e];
    assert s[..e] == s[0..e];
  }

  /** A number below 1000 in three digits. */
  function Three(k: nat): seq<byte>
    requires k < 1000
  {
    [ZERO + k / 100, ZERO + k / 10 % 10, ZERO + k % 10]
  }

  /** A number with the integer part `w`, the fraction digits `f` and an exponent of three digits. */
  function ScientificText(negative: bool, w: seq<byte>, f: seq<byte>, lower: bool, k: nat): seq<byte>
    requires k < 1000
  {
    var sign: seq<byte>, frac: seq<byte> := if negative then [MINUS] else [], if f == [] then [] else [PERIOD] + f;
    sign + w + frac + ([LOWER_E, if lower then MINUS else PLUS] + Three(k))
  }

  /**
   Which exponents are accepted, for numbers other than zero whose integer part has no more than 19 digits. With
   fewer than 19 bytes of sign and digits the exponent counts from the last digit; with more, from the period.
   */
  lemma ExponentLimit(negative: bool, w: seq<byte>, f: seq<byte>, lower: bool, k: nat)
    requires IsDigits(w) && w[0] != ZERO && |w| <= 19 && (f == [] || IsDigits(f)) && k < 1000 && (f == [] ==> k > 0)
    ensures var s, p := ScientificText(negative, w, f, lower, k), if negative then 1 else 0;
            var e: int, from: int := if lower then -(k as int) else k, if p + |w| + |f| < 19 then |f| else 0;
            LiteralAt(s, p).Some? && (InRange(s, p, negative, LiteralAt(s, p).value) <==> -308 <= e - from <= 308)
  {
    var s, p := ScientificText(negative, w, f, lower, k), if negative then 1 else 0;
    var l := ScientificRead(s, negative, w, f, lower, k);
    ShortNoCarry(s, p, l.intEnd);
    LimitOf(s, p, negative, l, |f|, if lower then -(k as int) else k);
  }

  lemma ScientificRead(s: seq<byte>, negative: bool, w: seq<byte>, f: seq<byte>, lower: bool, k: nat) returns (l: Literal)
    requires IsDigits(w) && w[0] != ZERO && (f == [] || IsDigits(f)) && k < 1000 && s == ScientificText(negative, w, f, lower, k)
    ensures var p := if negative then 1 else 0;
            && LiteralAt(s, p) == Some(l) && Mantissa(s, p, l) > 0 && l.intEnd == p + |w| && FracDigits(l) == |f|
            && Exponent(s, l) == (if lower then -(k as int) else k)
            && l.end == l.fracEnd + 5 && ExpDigits(s, l.fracEnd) == l.fracEnd + 2
  {
    var p := if negative then 1 else 0;
    var a, b := ScientificParts(s, negative, w, f, lower, k);
    l := Literal(a, b, b + 5);
    PartsAreRead(s, p, a, b, b + 5);
    MantissaPositive(s, p, a, b, b + 5);
    ScientificExponent(s, a, b, lower, k);
  }

  lemma LimitOf(s: seq<byte>, p: nat, negative: bool, l: Literal, places: nat, e: int)
    requires NoCarry(s, p, l.intEnd) && Mantissa(s, p, l) > 0 && Exponent(s, l) == e && FracDigits(l) == places
    requires l.end == l.fracEnd + 5 && ExpDigits(s, l.fracEnd) == l.fracEnd + 2 && (places == 0 ==> e != 0)
    ensures InRange(s, p, negative, l) <==> -308 <= e - (if l.intEnd + places < 19 then places else 0) <= 308
  {}

  lemma MantissaPositive(s: seq<byte>, p: nat, a: nat, b: nat, e: nat)
    requires LiteralAt(s, p) == Some(Literal(a, b, e)) && At(s, p) != ZERO && a <= b
    ensures Mantissa(s, p, Literal(a, b, e)) > 0
  {
    IntDigits(s, p, a);
    assert Extend(0, s, p, a) > 0 by { assert a == p + 1 ==> Extend(0, s, p, a) == Digit(At(s, p)); }
    if a < b { ExtendGrows(Extend(0, s, p, a), s, a + 1, a + 1, b); }
  }

  lemma ScientificExponent(s: seq<byte>, a: nat, b: nat, lower: bool, k: nat)
    requires k < 1000 && |s| == b + 5 && At(s, b + 1) == (if lower then MINUS else PLUS) && s[b + 2..] == Three(k)
    ensures Exponent(s, Literal(a, b, b + 5)) == if lower then -(k as int) else k
    ensures ExpDigits(s, b) == b + 2
  {
    ThreeRead(s, b + 2, k);
  }

  lemma ScientificParts(s: seq<byte>, negative: bool, w: seq<byte>, f: seq<byte>, lower: bool, k: nat)
    returns (a: nat, b: nat)
    requires IsDigits(w) && w[0] != ZERO && (f == [] || IsDigits(f)) && k < 1000 && s == ScientificText(negative, w, f, lower, k)
    ensures var p := if negative then 1 else 0;
            && a == p + |w| && b == (if f == [] then a else a + 1 + |f|)
            && |s| == b + 5 && IsInt(s[p..a]) && At(s, p) != ZERO && IsFrac(s[a..b]) && IsExp(s[b..b + 5])
    ensures At(s, b + 1) == (if lower then MINUS else PLUS) && s[b + 2..] == Three(k)
  {
    var sign: seq<byte>, frac: seq<byte> := if negative then [MINUS] else [], if f == [] then [] else [PERIOD] + f;
    var exp: seq<byte> := [LOWER_E, if lower then MINUS else PLUS] + Three(k);
    a := |sign| + |w|;
    b := a + |frac|;
    ConcatSlices(s, sign, w, frac, exp);
    ExpIsExp(lower, k);
    assert exp[1] == At(s, b + 1) && s[|sign|] == w[0];
    assert frac != [] ==> frac[1..] == f;
    assert s[b + 2..] == s[b..][2..];
  }

  lemma ExpIsExp(lower: bool, k: nat)
    requires k < 1000
    ensures var exp: seq<byte> := [LOWER_E, if lower then MINUS else PLUS] + Three(k); IsExp(exp) && exp[2..] == Three(k)
  {
    var exp: seq<byte> := [LOWER_E, if lower then MINUS else PLUS] + Three(k);
    assert exp[2..] == Three(k);
  }

  lemma ConcatSlices(s: seq<byte>, x: seq<byte>, y: seq<byte>, z: seq<byte>, u: seq<byte>)
    requires s == x + y + z + u
    ensures var p, a, b := |x|, |x| + |y|, |x| + |y| + |z|;
            |s| == b + |u| && s[p..a] == y && s[a..b] == z && s[b..] == u && s[b..b + |u|] == u
  {}

  lemma ThreeRead(s: seq<byte>, d: nat, k: nat)
    requires k < 1000 && d + 3 <= |s| && s[d..] == Three(k)
    ensures Extend(0, s, d, d + 3) == k
  {
    assert s[d..][0] == s[d] && s[d..][1] == s[d + 1] && s[d..][2] == s[d + 2];
    assert Extend(0, s, d, d + 1) == k / 100;
    assert Extend(0, s, d, d + 2) == 10 * Extend(0, s, d, d + 1) + k / 10 % 10;
    assert k / 10 == 10 * (k / 100) + k / 10 % 10;
  }

  /** Zero is accepted with any exponent of three digits: `0e999`. */
  lemma ZeroAccepted()
    ensures var s: seq<byte> := [ZERO, LOWER_E, NINE, NINE, NINE];
            LiteralAt(s, 0) == Some(Literal(1, 1, 5)) && InRange(s, 0, false, Literal(1, 1, 5))
  {
    var s: seq<byte> := [ZERO, LOWER_E, NINE, NINE, NINE];
    DigitsEndIs(s, 3, 5);
    assert Extend(0, s, 2, 3) == 9 && Extend(0, s, 2, 4) == 99 && Extend(0, s, 2, 5) == 999;
    assert Extend(0, s, 0, 1) == 0;
    ShortNoCarry(s, 0, 1);
  }

  /** An exponent of four digits is legal but refused: `1e0000`. */
  lemma LongExponentRefused()
    ensures var s: seq<byte> := [0x31, LOWER_E, ZERO, ZERO, ZERO, ZERO];
            LiteralAt(s, 0) == Some(Literal(1, 1, 6)) && !InRange(s, 0, false, Literal(1, 1, 6))
  {
    var s: seq<byte> := [0x31, LOWER_E, ZERO, ZERO, ZERO, ZERO];
    DigitsEndIs(s, 1, 1);
    DigitsEndIs(s, 3, 6);
  }

  /** An integer with a zero exponent of up to three digits is accepted exactly if it takes up less than 18 bytes. */
  lemma ZeroExponentLimit(w: seq<byte>, z: nat)
    requires IsInt(w) && 1 <= z <= 3
    ensures var s := w + [LOWER_E] + seq<byte>(z, _ => ZERO);
            LiteralAt(s, 0) == Some(Literal(|w|, |w|, |s|)) && (InRange(s, 0, false, Literal(|w|, |w|, |s|)) <==> |s| < 18)
  {
    var s := w + [LOWER_E] + seq<byte>(z, _ => ZERO);
    var a := |w|;
    ZeroExponentParts(s, w, z);
    PartsAreRead(s, 0, a, a, |s|);
    if |s| < 18 { ShortNoCarry(s, 0, a); }
  }

  lemma ZeroExponentParts(s: seq<byte>, w: seq<byte>, z: nat)
    requires z >= 1 && s == w + [LOWER_E] + seq<byte>(z, _ => ZERO)
    ensures var a := |w|;
            s[0..a] == w && s[a..a] == [] && IsExp(s[a..|s|]) && |s| == a + 1 + z && Exponent(s, Literal(a, a, |s|)) == 0
            && ExpDigits(s, a) == a + 1
  {
    var a := |w|;
    var exp := s[a..|s|];
    assert exp[0] == LOWER_E && exp[1..] == seq<byte>(z, _ => ZERO);
    assert s[a + 1] == ZERO;
    ZerosRead(s, a + 1, |s|);
  }

  lemma {:induction false} ZerosRead(s: seq<byte>, i: nat, j: nat)
    requires i <= j <= |s| && forall k :: i <= k < j ==> s[k] == ZERO
    ensures Extend(0, s, i, j) == 0
    decreases j
  {
    if i < j { ZerosRead(s, i, j - 1); }
  }

  /** An integer with a zero exponent is refused when it takes up 18 bytes: `1000000000000000e0`. */
  lemma ZeroExponentRefused()
    ensures var s := [0x31] + seq<byte>(15, _ => ZERO) + [LOWER_E, ZERO];
            LiteralAt(s, 0) == Some(Literal(16, 16, 18)) && Exponent(s, Literal(16, 16, 18)) == 0
            && !InRange(s, 0, false, Literal(16, 16, 18))
  {
    var s: seq<byte> := [0x31] + seq<byte>(15, _ => ZERO) + [LOWER_E, ZERO];
    DigitsEndIs(s, 1, 16);
    DigitsEndIs(s, 18, 18);
    assert Extend(0, s, 17, 18) == 0;
  }

  /** A power of ten beyond 308 is refused: `1e309`. */
  lemma LargePowerRefused()
    ensures var s: seq<byte> := [0x31, LOWER_E, 0x33, ZERO, NINE];
            LiteralAt(s, 0) == Some(Literal(1, 1, 5)) && !InRange(s, 0, false, Literal(1, 1, 5))
  {
    var s: seq<byte> := [0x31, LOWER_E, 0x33, ZERO, NINE];
    DigitsEndIs(s, 1, 1);
    DigitsEndIs(s, 3, 5);
    assert Extend(0, s, 2, 3) == 3 && Extend(0, s, 2, 4) == 30 && Extend(0, s, 2, 5) == 309;
    assert Extend(0, s, 0, 1) == 1;
  }

  /** The five bytes at `j`. */
  predicate FiveAt(s: seq<byte>, j: nat, a: byte, b: byte, c: byte, d: byte, e: byte) {
    j + 5 <= |s| && s[j] == a && s[j + 1] == b && s[j + 2] == c && s[j + 3] == d && s[j + 4] == e
  }

  lemma NextFive(s: seq<byte>, j: nat, v: nat, a: byte, b: byte, c: byte, d: byte, e: byte)
    requires Extend(0, s, 0, j) == v && FiveAt(s, j, a, b, c, d, e)
    requires IsDigit(a) && IsDigit(b) && IsDigit(c) && IsDigit(d) && IsDigit(e)
    ensures Extend(0, s, 0, j + 5)
            == 100_000 * v + 10_000 * Digit(a) + 1000 * Digit(b) + 100 * Digit(c) + 10 * Digit(d) + Digit(e)
  {
    assert Extend(0, s, 0, j + 1) == 10 * v + Digit(a);
    assert Extend(0, s, 0, j + 2) == 10 * Extend(0, s, 0, j + 1) + Digit(b);
    assert Extend(0, s, 0, j + 3) == 10 * Extend(0, s, 0, j + 2) + Digit(c);
    assert Extend(0, s, 0, j + 4) == 10 * Extend(0, s, 0, j + 3) + Digit(d);
  }

  lemma CarryAt(s: seq<byte>, j: nat)
    requires 10 * Extend(0, s, 0, j) % 0x1_0000_0000_0000_0000 + Digit(At(s, j)) >= U64_SIZE
    ensures !NoCarry(s, 0, j + 1)
  {}

  /** So is a number whose integer part passes 2^64 in its twentieth digit: `18446744073709551616.5`. */
  lemma CarryRefused(s: seq<byte>)
    requires |s| == 22 && FiveAt(s, 0, 0x31, 0x38, 0x34, 0x34, 0x36) && FiveAt(s, 5, 0x37, 0x34, 0x34, 0x30, 0x37)
    requires FiveAt(s, 10, 0x33, 0x37, 0x30, 0x39, 0x35) && FiveAt(s, 15, 0x35, 0x31, 0x36, 0x31, 0x36)
    requires s[20] == PERIOD && s[21] == 0x35
    ensures LiteralAt(s, 0) == Some(Literal(20, 22, 22)) && !InRange(s, 0, false, Literal(20, 22, 22))
  {
    CarryLiteral(s);
    TwentyDigits(s);
  }

  /** One less and nothing carries: `18446744073709551615.5` is accepted. */
  lemma NoCarryAccepted(s: seq<byte>)
    requires |s| == 22 && FiveAt(s, 0, 0x31, 0x38, 0x34, 0x34, 0x36) && FiveAt(s, 5, 0x37, 0x34, 0x34, 0x30, 0x37)
    requires FiveAt(s, 10, 0x33, 0x37, 0x30, 0x39, 0x35) && FiveAt(s, 15, 0x35, 0x31, 0x36, 0x31, 0x35)
    requires s[20] == PERIOD && s[21] == 0x35
    ensures LiteralAt(s, 0) == Some(Literal(20, 22, 22)) && InRange(s, 0, false, Literal(20, 22, 22))
  {
    CarryLiteral(s);
    TwentyDigitsFit(s);
    LongFraction(s, Literal(20, 22, 22));
  }

  lemma LongFraction(s: seq<byte>, l: Literal)
    requires NoCarry(s, 0, l.intEnd) && l.intEnd + 1 < l.fracEnd == l.end && l.intEnd >= 19
    ensures InRange(s, 0, false, l)
  {
    assert Exponent(s, l) == 0 && FracDigits(l) > 0;
  }

  lemma TwentyDigitsFit(s: seq<byte>)
    requires FiveAt(s, 0, 0x31, 0x38, 0x34, 0x34, 0x36) && FiveAt(s, 5, 0x37, 0x34, 0x34, 0x30, 0x37)
    requires FiveAt(s, 10, 0x33, 0x37, 0x30, 0x39, 0x35) && FiveAt(s, 15, 0x35, 0x31, 0x36, 0x31, 0x35)
    ensures NoCarry(s, 0, 20)
  {
    NextFive(s, 0, 0, 0x31, 0x38, 0x34, 0x34, 0x36);
    NextFive(s, 5, 18446, 0x37, 0x34, 0x34, 0x30, 0x37);
    NextFive(s, 10, 18446_74407, 0x33, 0x37, 0x30, 0x39, 0x35);
    NextFive(s, 15, 18446_74407_37095, 0x35, 0x31, 0x36, 0x31, 0x35);
    ShortNoCarry(s, 0, 19);
    assert 10 * Extend(0, s, 0, 19) == 18446_74407_37095_51610;
  }

  lemma CarryLiteral(s: seq<byte>)
    requires |s| == 22 && s[0] == 0x31 && (forall k :: 0 <= k < 20 ==> IsDigit(s[k])) && s[20] == PERIOD && s[21] == 0x35
    ensures LiteralAt(s, 0) == Some(Literal(20, 22, 22))
  {
    DigitsEndIs(s, 1, 20);
    DigitsEndIs(s, 22, 22);
  }

  lemma TwentyDigits(s: seq<byte>)
    requires FiveAt(s, 0, 0x31, 0x38, 0x34, 0x34, 0x36) && FiveAt(s, 5, 0x37, 0x34, 0x34, 0x30, 0x37)
    requires FiveAt(s, 10, 0x33, 0x37, 0x30, 0x39, 0x35) && FiveAt(s, 15, 0x35, 0x31, 0x36, 0x31, 0x36)
    ensures !NoCarry(s, 0, 20)
  {
    NextFive(s, 0, 0, 0x31, 0x38, 0x34, 0x34, 0x36);
    NextFive(s, 5, 18446, 0x37, 0x34, 0x34, 0x30, 0x37);
    NextFive(s, 10, 18446_74407, 0x33, 0x37, 0x30, 0x39, 0x35);
    NextFive(s, 15, 18446_74407_37095, 0x35, 0x31, 0x36, 0x31, 0x36);
    assert Extend(0, s, 0, 20) == 18446_74407_37095_51616;
    CarryAt(s, 19);
  }
}
