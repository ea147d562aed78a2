/** The number parser: one pass over the digits in a wrapping 64-bit word, with two careful slow paths. */
module NumberParse {
  import opened Bytes
  import opened Numbers
  import opened Swar
  import opened Simd

  // ----- 64-bit words

  function WrappingMul(a: nat, b: nat): nat {
    a * b % 0x1_0000_0000_0000_0000
  }

  function WrappingAdd(a: nat, b: nat): nat {
    (a + b) % 0x1_0000_0000_0000_0000
  }

  function WrappingNeg(a: nat): nat
    requires a < U64_SIZE
  {
    (U64_SIZE - a) % 0x1_0000_0000_0000_0000
  }

  /** The bits of a word read as a signed number. */
  function AsI64(a: nat): int
    requires a < U64_SIZE
  {
    if a < I64_SIZE then a else a - U64_SIZE
  }

  /** Negation in two's complement. */
  function NegI64(a: int): int
    requires -I64_SIZE <= a < I64_SIZE
  {
    if a == -I64_SIZE then a else -a
  }

  /** Entry `i` of the table of powers of ten. */
  function PowerOfTen(i: int): real
    requires 0 <= i < 617
  {
    Pow10(i - 308)
  }

  /** Whether a zero may not be followed by `c`: the table behind the first digit. */
  predicate IsNotStructuralOrWhitespaceOrExponentOrDecimal(c: byte) {
    !(IsTerminator(c) || c == PERIOD || IsE(c))
  }

  /** The 64-bit word `w` holds `v`, up to wrapping around. */
  ghost predicate Holds(w: nat, v: nat) {
    w == v % 0x1_0000_0000_0000_0000
  }

  /** A wrapping step keeps the word equal to the digits modulo its size. */
  lemma WordStep(v: nat, w: nat, f: nat, d: nat)
    requires Holds(w, v)
    ensures Holds(WrappingMul(w, f), v * f) && WrappingMul(w, f) < U64_SIZE
    ensures Holds(WrappingAdd(WrappingMul(w, f), d), v * f + d)
  {
    ModMul(v, f, 0x1_0000_0000_0000_0000);
    ModAdd(v * f, d, 0x1_0000_0000_0000_0000);
  }

  lemma ModMul(v: nat, f: nat, m: nat)
    requires m > 0
    ensures v % m * f % m == v * f % m
  {
    var q, r := v / m, v % m;
    assert v * f == r * f + m * (q * f) by {
      assert v == m * q + r;
      Distribute(m, q, r, f);
    }
    ModShift(r * f, q * f, m);
  }

  lemma Distribute(m: nat, q: nat, r: nat, f: nat)
    ensures (m * q + r) * f == r * f + m * (q * f)
  {}

  lemma ModAdd(v: nat, d: nat, m: nat)
    requires m > 0
    ensures (v % m + d) % m == (v + d) % m
  {
    assert v == m * (v / m) + v % m;
    ModShift(v % m + d, v / m, m);
  }

  lemma ModShift(a: nat, q: nat, m: nat)
    requires m > 0
    ensures (a + m * q) % m == a % m
  {
    var x, r := a / m, a % m;
    assert a == m * x + r;
    assert m * (x + q) == m * x + m * q;
    DivModUnique(a + m * q, m, x + q, r);
  }

  // ----- digits in a word

  /** The state of the first loop: the digits `[p..n)` are in the word, and no addition carried out. */
  ghost predicate Read(s: seq<byte>, p: nat, n: nat, w: nat) {
    p < n && DigitsEnd(s, p + 1) == DigitsEnd(s, n) && NoCarry(s, p, n) && Holds(w, Extend(0, s, p, n))
  }

  lemma FirstDigit(s: seq<byte>, p: nat)
    requires IsDigit(At(s, p))
    ensures Read(s, p, p + 1, At(s, p) - ZERO)
  {
    assert Extend(0, s, p, p + 1) == Digit(At(s, p));
    assert NoCarry(s, p, p);
  }

  lemma NextDigit(s: seq<byte>, p: nat, n: nat, w: nat)
    requires Read(s, p, n, w) && IsDigit(At(s, n))
    ensures WrappingMul(w, 10) + Digit(At(s, n)) < U64_SIZE <==> NoCarry(s, p, n + 1)
    ensures NoCarry(s, p, n + 1) ==> Read(s, p, n + 1, WrappingMul(w, 10) + Digit(At(s, n)))
  {
    var v, d := Extend(0, s, p, n), Digit(At(s, n));
    WordStep(v, w, 10, d);
    assert 10 * v == v * 10;
    assert Extend(0, s, p, n + 1) == 10 * v + d;
    assert NoCarry(s, p, n + 1) <==> WrappingMul(w, 10) + d < U64_SIZE;
  }

  /** The state of the fraction loop. */
  ghost predicate Appended(s: seq<byte>, v: nat, start: nat, n: nat, w: nat) {
    start <= n && DigitsEnd(s, start) == DigitsEnd(s, n) && Holds(w, Extend(v, s, start, n))
  }

  lemma AppendDigit(s: seq<byte>, v: nat, start: nat, n: nat, w: nat, d: nat, next: nat)
    requires Appended(s, v, start, n, w) && IsDigit(At(s, n)) && d == At(s, n) - ZERO
    requires next == WrappingAdd(WrappingMul(w, 10), d)
    ensures Appended(s, v, start, n + 1, next)
  {
    var u := Extend(v, s, start, n);
    WordStep(u, w, 10, d);
    assert Extend(v, s, start, n + 1) == u * 10 + d;
  }

  lemma AppendEight(s: seq<byte>, v: nat, start: nat, w: nat, next: nat)
    requires Holds(w, v) && IsMadeOfEightDigitsFast(s, start)
    requires next == WrappingAdd(WrappingMul(w, 100_000_000), ParseEightDigitsUnrolled(s, start))
    ensures Appended(s, v, start, start + 8, next)
  {
    EightDigitsFast(s, start);
    EightDigitsValue(s, start);
    ExtendEight(v, s, start);
    var eight := ParseEightDigitsUnrolled(s, start);
    WordStep(v, w, 100_000_000, eight);
    assert Extend(v, s, start, start + 8) == v * 100_000_000 + eight;
    SkipDigits(s, start, start + 8);
  }

  // ----- the parts of a number

  /** Reads the integer part into a wrapping word; a carry out of the word is an error. */
  method ReadInt(buf: seq<byte>, p: nat) returns (r: Result<(nat, nat)>)
    ensures r.Ok? ==> IntEnd(buf, p) == Some(r.value.1) && NoCarry(buf, p, r.value.1)
                      && Holds(r.value.0, Extend(0, buf, p, r.value.1))
    ensures r.Err? ==> LiteralAt(buf, p).None? || !NoCarry(buf, p, LiteralAt(buf, p).value.intEnd)
  {
    var byteCount := p;
    var d := At(buf, byteCount);
    if d == ZERO {
      byteCount := byteCount + 1;
      d := At(buf, byteCount);
      if IsNotStructuralOrWhitespaceOrExponentOrDecimal(d) {
        return Err(InvalidNumber);
      }
      FirstDigit(buf, p);
      return Ok((0, byteCount));
    }
    if !IsDigit(d) {
      return Err(InvalidNumber);
    }
    var i: nat := d - ZERO;
    FirstDigit(buf, p);
    byteCount := byteCount + 1;
    d := At(buf, byteCount);
    while IsDigit(d)
      invariant d == At(buf, byteCount) && Read(buf, p, byteCount, i)
      decreases |buf| - byteCount
    {
      NextDigit(buf, p, byteCount, i);
      var digit := d - ZERO;
      i := WrappingMul(i, 10);
      if i + digit >= U64_SIZE {
        CarryStays(buf, p, byteCount + 1, DigitsEnd(buf, p + 1));
        return Err(Overflow);
      }
      i := i + digit;
      byteCount := byteCount + 1;
      d := At(buf, byteCount);
    }
    return Ok((i, byteCount));
  }

  lemma {:induction false} CarryStays(s: seq<byte>, p: nat, i: nat, j: nat)
    requires i <= j && !NoCarry(s, p, i)
    ensures !NoCarry(s, p, j)
    decreases j
  {
    if i < j { CarryStays(s, p, i, j - 1); }
  }

  /** The shortcut: eight digits in one step, if the next eight bytes are digits. */
  method ReadEightDigits(buf: seq<byte>, w: nat, start: nat, ghost v: nat) returns (i: nat, byteCount: nat)
    requires Holds(w, v)
    ensures Appended(buf, v, start, byteCount, i)
  {
    i, byteCount := w, start;
    if IsMadeOfEightDigitsFast(buf, start) {
      i := WrappingAdd(WrappingMul(i, 100_000_000), ParseEightDigitsUnrolled(buf, byteCount));
      AppendEight(buf, v, start, w, i);
      byteCount := byteCount + 8;
    }
  }

  /**
   Reads on from digit to digit, with the shortcut for eight digits at a time if it is switched on.
   The outcome does not depend on the switch.
   */
  method ReadFraction(buf: seq<byte>, w: nat, start: nat, swar: bool, ghost v: nat) returns (i: nat, byteCount: nat)
    requires Holds(w, v)
    ensures byteCount == DigitsEnd(buf, start)
    ensures Holds(i, Extend(v, buf, start, byteCount))
  {
    i, byteCount := w, start;
    assert Appended(buf, v, start, byteCount, i);
    if swar {
      i, byteCount := ReadEightDigits(buf, i, byteCount, v);
    }
    var d := At(buf, byteCount);
    while IsDigit(d)
      invariant d == At(buf, byteCount) && Appended(buf, v, start, byteCount, i)
      decreases |buf| - byteCount
    {
      ghost var was := i;
      var digit := d - ZERO;
      i := WrappingAdd(WrappingMul(i, 10), digit);
      AppendDigit(buf, v, start, byteCount, was, digit, i);
      byteCount := byteCount + 1;
      d := At(buf, byteCount);
    }
  }

  lemma {:induction false} SkipDigits(s: seq<byte>, i: nat, j: nat)
    requires i <= j && forall k :: i <= k < j ==> IsDigit(At(s, k))
    ensures DigitsEnd(s, i) == DigitsEnd(s, j)
    decreases j - i
  {
    if i < j { SkipDigits(s, i + 1, j); }
  }

  /** Reads up to `most` exponent digits from `d` on; one more is an error. */
  method ReadExponent(buf: seq<byte>, d: nat, most: nat) returns (r: Result<(nat, nat)>)
    requires 1 <= most <= 4
    ensures r.Ok? <==> IsDigit(At(buf, d)) && DigitsEnd(buf, d) - d <= most
    ensures r.Ok? ==> r.value == (Extend(0, buf, d, DigitsEnd(buf, d)), DigitsEnd(buf, d))
  {
    if !IsDigit(At(buf, d)) {
      return Err(InvalidNumber);
    }
    var exp, n := At(buf, d) - ZERO, d + 1;
    assert exp == Extend(0, buf, d, n);
    while n < d + most && IsDigit(At(buf, n))
      invariant d < n <= d + most && exp == Extend(0, buf, d, n)
      invariant DigitsEnd(buf, d) == DigitsEnd(buf, n)
    {
      exp := 10 * exp + (At(buf, n) - ZERO);
      n := n + 1;
    }
    if IsDigit(At(buf, n)) {
      return Err(InvalidNumber);
    }
    return Ok((exp, n));
  }

  // ----- integers that may be too large

  /** Checked arithmetic from the start again. */
  method ParseLargeInteger(buf: seq<byte>, negative: bool) returns (r: Result<Number>)
    requires IsDigit(At(buf, Start(negative)))
    ensures var p := Start(negative);
            var a := IntEnd(buf, p).value;
            var m := Extend(0, buf, p, a);
            (r.Ok? <==> IsTerminator(At(buf, a)) && if negative then m <= I64_SIZE else m < I64_SIZE)
            && (r.Ok? ==> r.value == I64(Numbers.Signed(negative, m)))
  {
    var digitcount: nat := if negative then 1 else 0;
    var d := At(buf, digitcount);
    var i: nat;
    if d == ZERO {
      digitcount := digitcount + 1;
      d := At(buf, digitcount);
      i := 0;
      assert Extend(0, buf, Start(negative), digitcount) == 0;
    } else {
      ghost var p := digitcount;
      i := d - ZERO;
      digitcount := digitcount + 1;
      d := At(buf, digitcount);
      assert Extend(0, buf, p, digitcount) == i;
      while IsDigit(d)
        invariant p < digitcount && d == At(buf, digitcount)
        invariant DigitsEnd(buf, p + 1) == DigitsEnd(buf, digitcount)
        invariant i == Extend(0, buf, p, digitcount) < U64_SIZE
        decreases |buf| - digitcount
      {
        var digit := d - ZERO;
        if 10 * i + digit >= U64_SIZE {
          ExtendGrows(0, buf, p, digitcount + 1, DigitsEnd(buf, p + 1));
          return Err(Overflow);
        }
        i := 10 * i + digit;
        digitcount := digitcount + 1;
        d := At(buf, digitcount);
      }
    }
    if negative {
      if i > I64_SIZE {
        return Err(Overflow);
      }
    } else if i >= I64_SIZE {
      return Err(Overflow);
    }
    if IsTerminator(d) {
      return Ok(I64(if negative then NegI64(AsI64(i)) else AsI64(i)));
    } else {
      return Err(InvalidNumber);
    }
  }

  /** Where the digits start. */
  function Start(negative: bool): nat {
    if negative then 1 else 0
  }

  // ----- floats with many digits

  /** `f` is the fraction the digits `[start..n)` stand for. */
  ghost predicate IsFraction(s: seq<byte>, start: nat, n: nat, f: real) {
    start <= n && DigitsEnd(s, start) == DigitsEnd(s, n)
    && Times(f, Power10(n - start) as real) == Extend(0, s, start, n) as real
  }

  /** The first digits of a fraction, up to 17 of them, in a 64-bit word next to their weight. */
  method ReadFractionWord(buf: seq<byte>, start: nat) returns (fraction: nat, fractionWeight: nat, n: nat)
    requires IsDigit(At(buf, start))
    ensures start < n && DigitsEnd(buf, start) == DigitsEnd(buf, n)
    ensures fraction == Extend(0, buf, start, n) && fractionWeight == Power10(n - start)
    ensures fraction < fractionWeight < U64_SIZE
  {
    fraction := At(buf, start) - ZERO;
    fractionWeight := 10;
    n := start + 1;
    assert Extend(0, buf, start, n) == fraction && Power10(1) == 10;
    while IsDigit(At(buf, n)) && fractionWeight <= 10_000_000_000_000_000
      invariant start < n && DigitsEnd(buf, start) == DigitsEnd(buf, n)
      invariant fraction == Extend(0, buf, start, n) && fractionWeight == Power10(n - start)
      invariant fraction < fractionWeight <= 100_000_000_000_000_000
      decreases |buf| - n
    {
      var digit := At(buf, n) - ZERO;
      fractionWeight := fractionWeight * 10;
      fraction := fraction * 10 + digit;
      n := n + 1;
    }
  }

  /** The digits of a fraction from `start` on: what the word does not take in is added as rationals. */
  method ReadLongFraction(buf: seq<byte>, start: nat) returns (fraction: real, n: nat)
    requires IsDigit(At(buf, start))
    ensures n == DigitsEnd(buf, start) && IsFraction(buf, start, n, fraction)
  {
    var word, wordWeight;
    word, wordWeight, n := ReadFractionWord(buf, start);
    var fractionWeight := wordWeight as real;
    fraction := word as real / fractionWeight;
    Quotient(word as real, fractionWeight);
    WordFraction(buf, start, n, word, wordWeight, fraction);
    while IsDigit(At(buf, n))
      invariant fractionWeight == Power10(n - start) as real && IsFraction(buf, start, n, fraction)
      decreases |buf| - n
    {
      var digit := At(buf, n) - ZERO;
      fractionWeight := fractionWeight * 10.0;
      FractionStep(buf, start, n, fraction, fractionWeight, digit);
      fraction := fraction + digit as real / fractionWeight;
      n := n + 1;
    }
  }

  lemma WordFraction(s: seq<byte>, start: nat, n: nat, word: nat, weight: nat, f: real)
    requires start <= n && DigitsEnd(s, start) == DigitsEnd(s, n)
    requires word == Extend(0, s, start, n) && weight == Power10(n - start) && Times(f, weight as real) == word as real
    ensures IsFraction(s, start, n, f)
  {}

  lemma Quotient(a: real, w: real)
    requires w > 0.0
    ensures Times(a / w, w) == a
  {}

  lemma FractionStep(s: seq<byte>, start: nat, n: nat, f: real, w: real, d: nat)
    requires IsFraction(s, start, n, f) && w == Power10(n - start) as real * 10.0
    requires IsDigit(At(s, n)) && d == At(s, n) - ZERO
    ensures w == Power10(n + 1 - start) as real
    ensures IsFraction(s, start, n + 1, f + d as real / w)
  {
    var q, x := Power10(n - start), Extend(0, s, start, n);
    assert Power10(n + 1 - start) == 10 * q;
    assert Extend(0, s, start, n + 1) == 10 * x + d;
    TenTimes(q);
    AddDigit(f, q as real, d);
    Enlarge(x, d);
  }

  lemma TenTimes(q: nat)
    ensures (10 * q) as real == q as real * 10.0
  {}

  lemma Enlarge(x: nat, d: nat)
    ensures (10 * x + d) as real == 10.0 * x as real + d as real
  {}

  lemma AddDigit(f: real, w: real, d: nat)
    requires w > 0.0
    ensures Times(f + d as real / (w * 10.0), w * 10.0) == 10.0 * Times(f, w) + d as real
  {
    var u := w * 10.0;
    Quotient(d as real, u);
    assert Times(f + d as real / u, u) == Times(f, u) + Times(d as real / u, u);
    assert Times(f, u) == 10.0 * Times(f, w);
  }

  /** Whole part plus fraction, times the power of the exponent, is the mantissa times the combined power. */
  lemma Combine(whole: nat, f: real, fd: nat, digits: nat, e: int)
    requires Times(f, Power10(fd) as real) == digits as real
    ensures Times(whole as real + f, Pow10(e)) == Times((whole * Power10(fd) + digits) as real, Pow10(e - fd))
  {
    var q, a := Power10(fd), Pow10(e - fd);
    Pow10Shift(e, fd);
    CombineReals(whole as real, f, q as real, a);
    SumAsReal(whole, q, digits);
  }

  lemma CombineReals(w: real, f: real, q: real, a: real)
    ensures Times(w + f, Times(a, q)) == Times(Times(w, q) + Times(f, q), a)
  {}

  lemma SumAsReal(w: nat, q: nat, d: nat)
    ensures (w * q + d) as real == Times(w as real, q as real) + d as real
  {}

  /** The whole part as a rational. */
  method ReadLongInt(buf: seq<byte>, p: nat) returns (i: real, n: nat)
    requires IsDigit(At(buf, p))
    ensures IntEnd(buf, p) == Some(n) && i == Extend(0, buf, p, n) as real
  {
    n := p + 1;
    assert Extend(0, buf, p, n) == At(buf, p) - ZERO;
    if At(buf, p) == ZERO {
      return 0.0, n;
    }
    i := (At(buf, p) - ZERO) as real;
    while IsDigit(At(buf, n))
      invariant p < n && DigitsEnd(buf, p + 1) == DigitsEnd(buf, n)
      invariant i == Extend(0, buf, p, n) as real
      decreases |buf| - n
    {
      i := 10.0 * i + (At(buf, n) - ZERO) as real;
      n := n + 1;
    }
  }

  /** The fraction behind the whole part, if there is one. */
  method ReadLongFrac(buf: seq<byte>, a: nat) returns (r: Result<(real, nat)>)
    ensures r.Ok? <==> FracEnd(buf, a).Some?
    ensures r.Ok? ==> var b := FracEnd(buf, a).value;
                      r.value.1 == b && Times(r.value.0, Power10(DigitsIn(a, b)) as real) == Extend(0, buf, a + 1, b) as real
  {
    if At(buf, a) != PERIOD {
      return Ok((0.0, a));
    }
    if !IsDigit(At(buf, a + 1)) {
      return Err(Parser);
    }
    var f, n := ReadLongFraction(buf, a + 1);
    return Ok((f, n));
  }

  /** The exponent with its sign, of at most `most` digits. */
  method ReadExp(buf: seq<byte>, b: nat, most: nat) returns (r: Result<(int, nat)>)
    requires 1 <= most <= 4
    ensures r.Ok? <==> ExpEnd(buf, b).Some? && (ExpEnd(buf, b).value > b ==> ExpEnd(buf, b).value - ExpDigits(buf, b) <= most)
    ensures r.Ok? ==> var e := ExpEnd(buf, b).value; r.value == (ExponentIn(buf, b, e), e)
  {
    if !IsE(At(buf, b)) {
      return Ok((0, b));
    }
    var byteCount := b + 1;
    var negexp := false;
    if At(buf, byteCount) == MINUS {
      negexp := true;
      byteCount := byteCount + 1;
    } else if At(buf, byteCount) == PLUS {
      byteCount := byteCount + 1;
    }
    var digits := ReadExponent(buf, byteCount, most);
    if digits.Err? {
      return Err(digits.error);
    }
    var expnumber: int := digits.value.0;
    return Ok((if negexp then -expnumber else expnumber, digits.value.1));
  }

  /** What the careful path accepts. */
  predicate FloatInRange(s: seq<byte>, l: Literal) {
    (l.end > l.fracEnd ==> l.end - ExpDigits(s, l.fracEnd) <= 4) && -308 <= Exponent(s, l) <= 308
  }

  /** Rational arithmetic from the start again, for numbers with a fraction or an exponent and many digits. */
  method ParseFloat(buf: seq<byte>, negative: bool) returns (r: Result<Number>)
    requires IsDigit(At(buf, Start(negative)))
    ensures var l := LiteralAt(buf, Start(negative));
            (r.Ok? <==> l.Some? && FloatInRange(buf, l.value))
            && (r.Ok? ==> r.value == Scaled(negative, Mantissa(buf, Start(negative), l.value),
                                            Exponent(buf, l.value) - FracDigits(l.value)))
  {
    var i, a := ReadLongInt(buf, if negative then 1 else 0);
    var fraction := ReadLongFrac(buf, a);
    if fraction.Err? {
      return Err(fraction.error);
    }
    var b := fraction.value.1;
    var exp := ReadExp(buf, b, 4);
    if exp.Err? {
      return Err(exp.error);
    }
    var exponent, digitcount := exp.value.0, exp.value.1;
    if exponent > 308 || exponent < -308 {
      return Err(Parser);
    }
    FloatMeaning(buf, Start(negative), Literal(a, b, digitcount), fraction.value.0, exponent);
    i := Times(i + fraction.value.0, PowerOfTen(308 + exponent));
    FloatLiteral(buf, Start(negative), Literal(a, b, digitcount));
    if !IsTerminator(At(buf, digitcount)) {
      return Err(Parser);
    }
    return Ok(F64(if negative then -i else i));
  }

  lemma FloatLiteral(s: seq<byte>, p: nat, l: Literal)
    requires IntEnd(s, p) == Some(l.intEnd) && FracEnd(s, l.intEnd) == Some(l.fracEnd) && ExpEnd(s, l.fracEnd) == Some(l.end)
    ensures LiteralAt(s, p) == if IsTerminator(At(s, l.end)) then Some(l) else None
  {}

  lemma FloatMeaning(s: seq<byte>, p: nat, l: Literal, f: real, e: int)
    requires l.intEnd <= l.fracEnd && Times(f, Power10(FracDigits(l)) as real) == Extend(0, s, l.intEnd + 1, l.fracEnd) as real
    ensures Times(Extend(0, s, p, l.intEnd) as real + f, Pow10(e)) == Times(Mantissa(s, p, l) as real, Pow10(e - FracDigits(l)))
  {
    MantissaSplits(s, p, l);
    Combine(Extend(0, s, p, l.intEnd), f, FracDigits(l), Extend(0, s, l.intEnd + 1, l.fracEnd), e);
  }

  lemma MantissaSplits(s: seq<byte>, p: nat, l: Literal)
    requires l.intEnd <= l.fracEnd
    ensures Mantissa(s, p, l) == Extend(0, s, p, l.intEnd) * Power10(FracDigits(l)) + Extend(0, s, l.intEnd + 1, l.fracEnd)
  {
    if l.intEnd < l.fracEnd { ExtendSplit(Extend(0, s, p, l.intEnd), s, l.intEnd + 1, l.fracEnd); }
  }

  // ----- the whole number

  /** The fraction behind the integer part, taken into the word; gives the exponent it stands for. */
  method ReadFrac(buf: seq<byte>, w: nat, a: nat, swar: bool, ghost v: nat) returns (r: Result<(nat, nat)>)
    requires Holds(w, v)
    ensures r.Ok? <==> FracEnd(buf, a).Some?
    ensures r.Ok? ==> r.value.1 == FracEnd(buf, a).value && Holds(r.value.0, Extend(v, buf, a + 1, r.value.1))
  {
    if At(buf, a) != PERIOD {
      return Ok((w, a));
    }
    var byteCount := a + 1;
    if !IsDigit(At(buf, byteCount)) {
      return Err(InvalidNumber);
    }
    var digit := At(buf, byteCount) - ZERO;
    var i := WrappingAdd(WrappingMul(w, 10), digit);
    assert Appended(buf, v, a + 1, byteCount, w);
    AppendDigit(buf, v, a + 1, byteCount, w, digit, i);
    byteCount := byteCount + 1;
    ghost var u := Extend(v, buf, a + 1, byteCount);
    i, byteCount := ReadFraction(buf, i, byteCount, swar, u);
    ExtendTwice(v, buf, a + 1, a + 2, byteCount);
    return Ok((i, byteCount));
  }

  /** A word that holds a number of at most 18 digits is that number. */
  lemma WordIsMantissa(s: seq<byte>, p: nat, l: Literal, w: nat)
    requires p <= l.intEnd <= l.fracEnd && l.intEnd - p + FracDigits(l) <= 18
    requires Holds(w, Mantissa(s, p, l))
    ensures w == Mantissa(s, p, l) < I64_SIZE
  {
    MantissaBound(s, p, l);
    PowerMonotone(l.intEnd - p + FracDigits(l), 18);
    Power18();
  }

  lemma MantissaBound(s: seq<byte>, p: nat, l: Literal)
    requires p <= l.intEnd <= l.fracEnd
    ensures Mantissa(s, p, l) < Power10(l.intEnd - p + FracDigits(l))
  {
    var v, fd := Extend(0, s, p, l.intEnd), FracDigits(l);
    ExtendBound(0, s, p, l.intEnd);
    if fd > 0 {
      ExtendBound(v, s, l.intEnd + 1, l.fracEnd);
      PowerAdds(l.intEnd - p, fd);
      MulMonotone(v + 1, Power10(l.intEnd - p), Power10(fd));
    }
  }

  lemma MulMonotone(a: nat, b: nat, c: nat)
    requires a <= b
    ensures a * c <= b * c
  {}

  lemma {:induction false} PowerAdds(a: nat, b: nat)
    ensures Power10(a + b) == Power10(a) * Power10(b)
  {
    if b > 0 {
      PowerAdds(a, b - 1);
      assert Power10(a) * Power10(b) == 10 * (Power10(a) * Power10(b - 1));
    }
  }

  /** The digits of the parts of `l` have been read into `i`. */
  ghost predicate DigitsRead(s: seq<byte>, negative: bool, l: Literal, i: nat) {
    var p := Start(negative);
    && IntEnd(s, p) == Some(l.intEnd) && FracEnd(s, l.intEnd) == Some(l.fracEnd) && ExpEnd(s, l.fracEnd) == Some(l.end)
    && NoCarry(s, p, l.intEnd) && (l.end > l.fracEnd ==> l.end - ExpDigits(s, l.fracEnd) <= 3)
    && Holds(i, Mantissa(s, p, l))
  }

  /** The table of powers, for a mantissa that fits the word. */
  method ShortFloat(buf: seq<byte>, negative: bool, i: nat, ghost l: Literal, exponent: int) returns (r: Result<Number>)
    requires DigitsRead(buf, negative, l, i) && l.intEnd + FracDigits(l) < 19
    requires exponent == Exponent(buf, l) - FracDigits(l)
    ensures r.Ok? <==> i == 0 || -308 <= exponent <= 308
    ensures i == Mantissa(buf, Start(negative), l)
    ensures r.Ok? ==> r.value == Scaled(negative, i, exponent)
  {
    WordIsMantissa(buf, Start(negative), l, i);
    if i == 0 {
      assert Times(0.0, Pow10(exponent)) == 0.0;
      return Ok(F64(0.0));
    }
    if exponent > 308 || exponent < -308 {
      return Err(InvalidExponent);
    }
    var d := Times(i as real, PowerOfTen(308 + exponent));
    return Ok(F64(if negative then -d else d));
  }

  /** An integer of so few digits that the word holds it. */
  method ShortInt(buf: seq<byte>, negative: bool, i: nat, ghost l: Literal) returns (r: Result<Number>)
    requires DigitsRead(buf, negative, l, i) && l.intEnd == l.fracEnd && l.intEnd < 18
    ensures r == Ok(I64(Numbers.Signed(negative, Mantissa(buf, Start(negative), l))))
  {
    WordIsMantissa(buf, Start(negative), l, i);
    r := Ok(I64(AsI64(if negative then WrappingNeg(i) else i)));
  }

  /** How the parser goes on once the digits are read: the three routes. */
  method Conclude(buf: seq<byte>, negative: bool, i: nat, ghost l: Literal, byteCount: nat, ignoreCount: nat,
                  exponent: int, expnumber: int)
    returns (r: Result<Number>)
    requires DigitsRead(buf, negative, l, i)
    requires byteCount == l.end && byteCount - ignoreCount == l.intEnd + FracDigits(l)
    requires expnumber == Exponent(buf, l) && exponent == expnumber - FracDigits(l)
    ensures Judged(buf, negative, r)
  {
    if exponent != 0 || expnumber != 0 {
      if byteCount - ignoreCount >= 19 {
        r := ParseFloat(buf, negative);
        return;
      }
      r := ShortFloat(buf, negative, i, l, exponent);
      if r.Err? { return; }
    } else {
      if byteCount >= 18 {
        r := ParseLargeInteger(buf, negative);
        return;
      }
      r := ShortInt(buf, negative, i, l);
    }
    if !IsTerminator(At(buf, byteCount)) {
      r := Err(InvalidNumber);
    }
  }

  /** Exactly the numbers in range are accepted, with exactly their meaning. */
  ghost predicate Judged(s: seq<byte>, negative: bool, r: Result<Number>) {
    var p, l := Start(negative), LiteralAt(s, Start(negative));
    (r.Ok? <==> l.Some? && InRange(s, p, negative, l.value))
    && (r.Ok? ==> r.value == Meaning(s, p, negative, l.value))
  }

  /** The number at the start of `buf`, past a minus sign if `negative`. */
  method ParseNumberInt(buf: seq<byte>, negative: bool, swar: bool) returns (r: Result<Number>)
    ensures Judged(buf, negative, r)
  {
    ghost var p := Start(negative);
    var whole := ReadInt(buf, if negative then 1 else 0);
    if whole.Err? {
      return Err(whole.error);
    }
    var a := whole.value.1;
    var frac := ReadFrac(buf, whole.value.0, a, swar, Extend(0, buf, p, a));
    if frac.Err? {
      return Err(frac.error);
    }
    var b := frac.value.1;
    var exp := ReadExp(buf, b, 3);
    if exp.Err? {
      return Err(exp.error);
    }
    var byteCount := exp.value.1;
    var ignoreCount := (if b > a then 1 else 0) + (byteCount - b);
    var exponent := (if b > a then a + 1 - b else 0) + exp.value.0;
    r := Conclude(buf, negative, frac.value.0, Literal(a, b, byteCount), byteCount, ignoreCount, exponent, exp.value.0);
  }
}
