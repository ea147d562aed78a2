/** Stage 1: the structural index of an input, found 64 bytes at a time. */
module Stage1 {
  import opened Bytes
  import opened Masks
  import opened Simd
  import opened Scanner
  import opened Utf8
  import opened Utf8Check

  const EVEN_BITS: Mask := seq(64, i => i % 2 == 0)
  const ODD_BITS: Mask := Not(EVEN_BITS)

  /** The block of stream `s` that starts at `idx`. */
  ghost predicate IsBlock(s: seq<byte>, idx: nat, input: SimdInput) {
    idx + 64 <= |s| && input.Bytes() == s[idx..idx + 64]
  }

  function CmpMaskAgainstInput(input: SimdInput, m: byte): (r: Mask)
    ensures |r| == 64
    ensures forall i :: 0 <= i < 64 ==> r[i] == (input.Bytes()[i] == m)
  {
    Movemask(CmpEq(input.lo, Set1(m))) + Movemask(CmpEq(input.hi, Set1(m)))
  }

  function UnsignedLteqAgainstInput(input: SimdInput, maxval: byte): (r: Mask)
    ensures |r| == 64
    ensures forall i :: 0 <= i < 64 ==> r[i] == (input.Bytes()[i] <= maxval)
  {
    var m := Set1(maxval);
    Movemask(CmpEq(MaxEpu8(m, input.lo), m)) + Movemask(CmpEq(MaxEpu8(m, input.hi), m))
  }

  // ----- backslashes

  /** `starts` holds the starts of the backslash runs in `bs` whose first position counts as odd, or as even. */
  ghost predicate AreStarts(bs: Mask, starts: Mask, flip: bool, odd: bool) {
    |bs| == |starts| &&
    forall j {:trigger starts[j]} :: 0 <= j < |bs| ==>
      (starts[j] <==> bs[j] && !(j > 0 && bs[j - 1]) && ((j % 2 == 1) != (j == 0 && flip)) == odd)
  }

  /** `bs` marks the backslashes of `s` from `idx` on. */
  ghost predicate MarksBackslashes(s: seq<byte>, idx: nat, bs: Mask) {
    idx + |bs| <= |s| && forall j :: 0 <= j < |bs| ==> bs[j] == (s[idx + j] == BACKSLASH)
  }

  /** Adding run starts to the runs carries out of exactly the runs they start, wherever those end. */
  lemma {:induction false} RunCarry(s: seq<byte>, idx: nat, bs: Mask, starts: Mask, odd: bool, i: nat)
    requires MarksBackslashes(s, idx, bs)
    requires AreStarts(bs, starts, Escaped(s, idx), odd)
    requires i <= |bs|
    ensures Carry(bs, starts, i) <==> i > 0 && bs[i - 1] && Escaped(s, idx + i) == ((i % 2 == 1) != odd)
  {
    if i > 0 {
      RunCarry(s, idx, bs, starts, odd, i - 1);
      EscapedStep(s, idx + i - 1);
      if i > 1 { EscapedStep(s, idx + i - 2); }
      assert (i % 2 == 1) != ((i - 1) % 2 == 1);
    }
  }

  /**
   Marks the bytes that follow an odd-length run of backslashes. The carry says whether the
   previous block ended inside an odd-length run.
   */
  method FindOddBackslashSequences(ghost s: seq<byte>, ghost idx: nat, input: SimdInput, prev: Mask)
    returns (oddEnds: Mask, next: Mask)
    requires IsBlock(s, idx, input)
    requires prev == Bit(64, Escaped(s, idx))
    ensures next == Bit(64, Escaped(s, idx + 64))
    ensures |oddEnds| == 64
    ensures forall i :: 0 <= i < 64 ==> oddEnds[i] == (s[idx + i] != BACKSLASH && Escaped(s, idx + i))
  {
    var bsBits := CmpMaskAgainstInput(input, BACKSLASH);
    var startEdges := And(bsBits, Not(ShiftLeft1(bsBits)));
    var evenStartMask := Xor(EVEN_BITS, prev);
    var evenStarts := And(startEdges, evenStartMask);
    var oddStarts := And(startEdges, Not(evenStartMask));
    var evenCarries := WrappingAdd(bsBits, evenStarts);
    var oddCarries := WrappingAdd(bsBits, oddStarts);
    var iterEndsOddBackslash := AddOverflows(bsBits, oddStarts);
    oddCarries := Or(oddCarries, prev);
    next := Bit(64, iterEndsOddBackslash);
    var evenCarryEnds := And(evenCarries, Not(bsBits));
    var oddCarryEnds := And(oddCarries, Not(bsBits));
    var evenStartOddEnd := And(evenCarryEnds, ODD_BITS);
    var oddStartEvenEnd := And(oddCarryEnds, EVEN_BITS);
    oddEnds := Or(evenStartOddEnd, oddStartEvenEnd);

    assert MarksBackslashes(s, idx, bsBits);
    EdgesAreStarts(bsBits, Escaped(s, idx));
    forall i | 0 <= i < 64
      ensures oddEnds[i] == (s[idx + i] != BACKSLASH && Escaped(s, idx + i))
    {
      OddEnd(s, idx, bsBits, evenStarts, oddStarts, i);
    }
    RunCarry(s, idx, bsBits, oddStarts, true, 64);
    EscapedStep(s, idx + 63);
  }

  lemma EdgesAreStarts(bs: Mask, flip: bool)
    requires |bs| == 64
    ensures var edges := And(bs, Not(ShiftLeft1(bs)));
            var even := Xor(EVEN_BITS, Bit(64, flip));
            AreStarts(bs, And(edges, even), flip, false) && AreStarts(bs, And(edges, Not(even)), flip, true)
  {}

  /** Every odd-length run shows in exactly one of the two sums, by the parity of its start and end. */
  lemma OddEnd(s: seq<byte>, idx: nat, bs: Mask, evenStarts: Mask, oddStarts: Mask, i: nat)
    requires MarksBackslashes(s, idx, bs) && i < |bs|
    requires AreStarts(bs, evenStarts, Escaped(s, idx), false)
    requires AreStarts(bs, oddStarts, Escaped(s, idx), true)
    ensures !bs[i] && ((Carry(bs, evenStarts, i) && i % 2 == 1)
                       || ((Carry(bs, oddStarts, i) || (i == 0 && Escaped(s, idx))) && i % 2 == 0))
            <==> s[idx + i] != BACKSLASH && Escaped(s, idx + i)
  {
    RunCarry(s, idx, bs, evenStarts, false, i);
    RunCarry(s, idx, bs, oddStarts, true, i);
    if i > 0 { EscapedStep(s, idx + i - 1); }
  }

  // ----- quotes

  /** XOR over the quotes of the block, on top of the state before it. */
  lemma {:induction false} PrefixXorIsInString(s: seq<byte>, idx: nat, quotes: Mask, n: nat)
    requires n <= |quotes| && idx + |quotes| <= |s|
    requires forall i :: 0 <= i < |quotes| ==> quotes[i] == IsQuote(s, idx + i)
    ensures (PrefixXor(quotes, n) != InString(s, idx)) == InString(s, idx + n)
  {
    if n > 0 { PrefixXorIsInString(s, idx, quotes, n - 1); }
  }

  /**
   The quote mask covers every string from its opening quote up to, not including, its closing one.
   The carry is all ones while a string is open across the block boundary.
   */
  method FindQuoteMaskAndBits(ghost s: seq<byte>, ghost idx: nat, input: SimdInput, oddEnds: Mask,
                              prevInside: Mask, errorMask: Mask)
    returns (quoteMask: Mask, quoteBits: Mask, nextInside: Mask, nextError: Mask)
    requires IsBlock(s, idx, input) && |oddEnds| == |errorMask| == 64
    requires forall i :: 0 <= i < 64 ==> oddEnds[i] == (s[idx + i] != BACKSLASH && Escaped(s, idx + i))
    requires prevInside == seq(64, _ => InString(s, idx))
    requires !IsZero(errorMask) == HasControlInString(s, idx)
    ensures |quoteBits| == |quoteMask| == |nextError| == 64
    ensures forall i :: 0 <= i < 64 ==> quoteBits[i] == IsQuote(s, idx + i)
    ensures forall i :: 0 <= i < 64 ==> quoteMask[i] == InString(s, idx + i + 1)
    ensures nextInside == seq(64, _ => InString(s, idx + 64))
    ensures !IsZero(nextError) == HasControlInString(s, idx + 64)
  {
    quoteBits := CmpMaskAgainstInput(input, QUOTE);
    quoteBits := And(quoteBits, Not(oddEnds));
    assert forall i :: 0 <= i < 64 ==> quoteBits[i] == IsQuote(s, idx + i);
    quoteMask := ClMulLow(quoteBits, Ones(64));
    quoteMask := Xor(quoteMask, prevInside);
    forall i | 0 <= i < 64 ensures quoteMask[i] == InString(s, idx + i + 1) {
      ProductWithOnes(quoteBits, Ones(64), i, i + 1);
      PrefixXorIsInString(s, idx, quoteBits, i + 1);
    }
    var unescaped := UnsignedLteqAgainstInput(input, 0x1f);
    nextError := Or(errorMask, And(quoteMask, unescaped));
    nextInside := SignFill(quoteMask);
    ControlStep(s, idx, quoteMask, unescaped, errorMask);
  }

  lemma ControlStep(s: seq<byte>, idx: nat, quoteMask: Mask, unescaped: Mask, errorMask: Mask)
    requires idx + 64 <= |s| && |quoteMask| == |unescaped| == |errorMask| == 64
    requires forall i :: 0 <= i < 64 ==> quoteMask[i] == InString(s, idx + i + 1)
    requires forall i :: 0 <= i < 64 ==> unescaped[i] == (s[idx + i] <= 0x1f)
    requires !IsZero(errorMask) == HasControlInString(s, idx)
    ensures !IsZero(Or(errorMask, And(quoteMask, unescaped))) == HasControlInString(s, idx + 64)
  {
    var m := Or(errorMask, And(quoteMask, unescaped));
    if !IsZero(m) {
      var i :| 0 <= i < 64 && m[i];
      if !errorMask[i] { assert InString(s, idx + i + 1) && s[idx + i] <= 0x1f; }
    }
    if HasControlInString(s, idx + 64) {
      var i :| 0 <= i < idx + 64 && InString(s, i + 1) && s[i] <= 0x1f;
      if i < idx {
        var j :| 0 <= j < 64 && errorMask[j];
        assert m[j];
      } else {
        assert idx + (i - idx) == i;
        assert m[i - idx];
      }
    }
  }

  // ----- blanks and structural bytes

  const LOW_NIBBLE_MASK: seq<byte> := [16, 0, 0, 0, 0, 0, 0, 0, 0, 8, 12, 1, 2, 9, 0, 0]
  const HIGH_NIBBLE_MASK: seq<byte> := [8, 0, 18, 4, 0, 1, 0, 1, 0, 0, 0, 3, 2, 1, 0, 0]

  predicate Odd(n: nat) {
    n % 2 == 1
  }

  /** `l`, `h` and `m` have a bit in common. */
  predicate Meets(l: nat, h: nat, m: nat) {
    BitAnd(BitAnd(l, h), m) != 0
  }

  lemma MeetsStep(l: nat, h: nat, m: nat)
    ensures Meets(l, h, m) <==> (Odd(l) && Odd(h) && Odd(m)) || Meets(l / 2, h / 2, m / 2)
  {
    assert BitAnd(l, h) / 2 == BitAnd(l / 2, h / 2);
  }

  lemma ShuftiStructural(b: byte)
    requires b < 128
    ensures Meets(LOW_NIBBLE_MASK[b % 16], HIGH_NIBBLE_MASK[b / 16], 0x7) == IsStructural(b)
  {
    var l, h := LOW_NIBBLE_MASK[b % 16], HIGH_NIBBLE_MASK[b / 16];
    MeetsStep(l, h, 7); MeetsStep(l / 2, h / 2, 3); MeetsStep(l / 2 / 2, h / 2 / 2, 1);
  }

  lemma ShuftiBlank(b: byte)
    requires b < 128
    ensures Meets(LOW_NIBBLE_MASK[b % 16], HIGH_NIBBLE_MASK[b / 16], 0x18) == IsBlank(b)
  {
    var l, h := LOW_NIBBLE_MASK[b % 16], HIGH_NIBBLE_MASK[b / 16];
    MeetsStep(l, h, 24); MeetsStep(l / 2, h / 2, 12); MeetsStep(l / 2 / 2, h / 2 / 2, 6);
    MeetsStep(l / 2 / 2 / 2, h / 2 / 2 / 2, 3); MeetsStep(l / 2 / 2 / 2 / 2, h / 2 / 2 / 2 / 2, 1);
  }

  /** The class bits of every byte: a table row per low nibble met with a table row per high nibble. */
  function Shufti(v: Register): Register {
    AndEpi8(ShuffleEpi8(Both(LOW_NIBBLE_MASK), v),
            ShuffleEpi8(Both(HIGH_NIBBLE_MASK), AndEpi8(SrliEpi32By4(v), Set1(0x7f))))
  }

  function ClassBits(b: byte): nat {
    BitAnd(if b >= 128 then 0 else LOW_NIBBLE_MASK[b % 16], HIGH_NIBBLE_MASK[b / 16])
  }

  lemma ClassBitsTell(b: byte)
    ensures (BitAnd(ClassBits(b), 0x7) != 0) == IsStructural(b)
    ensures (BitAnd(ClassBits(b), 0x18) != 0) == IsBlank(b)
  {
    if b < 128 {
      ShuftiStructural(b);
      ShuftiBlank(b);
    }
  }

  lemma ShuftiLane(v: Register, i: nat)
    requires i < LANES
    ensures Shufti(v)[i] == ClassBits(v[i])
  {
    var high := AndEpi8(SrliEpi32By4(v), Set1(0x7f));
    assert high[i] % 16 == v[i] / 16 && high[i] < 128 by { HighNibbleIndex(v, i); }
    ShuffleBoth(LOW_NIBBLE_MASK, v, i);
    ShuffleBoth(HIGH_NIBBLE_MASK, high, i);
  }

  lemma HighNibbleIndex(v: Register, i: nat)
    requires i < LANES
    ensures var high := AndEpi8(SrliEpi32By4(v), Set1(0x7f));
            high[i] % 16 == v[i] / 16 && high[i] < 128
  {
    BitAnd7f(SrliEpi32By4(v)[i]);
    NibbleSurvives(v[i], if i % 4 == 3 then 0 else v[i + 1]);
  }

  function ClassMask(v: Register, class_: byte): (m: Mask)
    ensures |m| == LANES && forall i :: 0 <= i < LANES ==> m[i] == (BitAnd(Shufti(v)[i], class_) == 0)
  {
    Movemask(CmpEq(AndEpi8(Shufti(v), Set1(class_)), Set1(0)))
  }

  lemma ClassMaskTells(v: Register)
    ensures |ClassMask(v, 0x7)| == |ClassMask(v, 0x18)| == LANES
    ensures forall i :: 0 <= i < LANES ==> ClassMask(v, 0x7)[i] == !IsStructural(v[i])
    ensures forall i :: 0 <= i < LANES ==> ClassMask(v, 0x18)[i] == !IsBlank(v[i])
  {
    forall i | 0 <= i < LANES
      ensures ClassMask(v, 0x7)[i] == !IsStructural(v[i]) && ClassMask(v, 0x18)[i] == !IsBlank(v[i])
    {
      ShuftiLane(v, i);
      ClassBitsTell(v[i]);
    }
  }

  method FindWhitespaceAndStructurals(input: SimdInput) returns (whitespace: Mask, structurals: Mask)
    ensures |whitespace| == |structurals| == 64
    ensures forall i :: 0 <= i < 64 ==> whitespace[i] == IsBlank(input.Bytes()[i])
    ensures forall i :: 0 <= i < 64 ==> structurals[i] == IsStructural(input.Bytes()[i])
  {
    structurals := Not(ClassMask(input.lo, 0x7) + ClassMask(input.hi, 0x7));
    whitespace := Not(ClassMask(input.lo, 0x18) + ClassMask(input.hi, 0x18));
    ClassMaskTells(input.lo);
    ClassMaskTells(input.hi);
    forall i | 0 <= i < 64
      ensures whitespace[i] == IsBlank(input.Bytes()[i]) && structurals[i] == IsStructural(input.Bytes()[i])
    {
      assert i >= 32 ==> input.Bytes()[i] == input.hi[i - 32] && whitespace[(i - 32) + 32] == whitespace[i];
    }
  }

  // ----- tokens

  /** What the block carry remembers: the byte before `i` allows a bare token to start. */
  predicate PseudoPred(s: seq<byte>, i: nat)
    requires i <= |s|
  {
    i == 0 || IsBlank(s[i - 1]) || IsQuote(s, i - 1) || (IsStructural(s[i - 1]) && !InString(s, i))
  }

  method FinalizeStructurals(ghost s: seq<byte>, ghost idx: nat, structurals: Mask, whitespace: Mask,
                             quoteMask: Mask, quoteBits: Mask, prevPseudoPred: Mask)
    returns (tokens: Mask, nextPseudoPred: Mask)
    requires idx + 64 <= |s| && |structurals| == |whitespace| == |quoteMask| == |quoteBits| == 64
    requires forall i :: 0 <= i < 64 ==> structurals[i] == IsStructural(s[idx + i])
    requires forall i :: 0 <= i < 64 ==> whitespace[i] == IsBlank(s[idx + i])
    requires forall i :: 0 <= i < 64 ==> quoteMask[i] == InString(s, idx + i + 1)
    requires forall i :: 0 <= i < 64 ==> quoteBits[i] == IsQuote(s, idx + i)
    requires prevPseudoPred == Bit(64, PseudoPred(s, idx))
    ensures |tokens| == 64 && forall i :: 0 <= i < 64 ==> tokens[i] == IsToken(s, idx + i)
    ensures nextPseudoPred == Bit(64, PseudoPred(s, idx + 64))
  {
    var st := And(structurals, Not(quoteMask));
    st := Or(st, quoteBits);
    var pseudoPred := Or(st, whitespace);
    var shiftedPseudoPred := Or(ShiftLeft1(pseudoPred), prevPseudoPred);
    nextPseudoPred := TopBit(pseudoPred);
    var pseudoStructurals := And(And(shiftedPseudoPred, Not(whitespace)), Not(quoteMask));
    var all := Or(st, pseudoStructurals);
    tokens := And(all, Not(And(quoteBits, Not(quoteMask))));

    assert forall i :: 0 <= i < 64 ==> pseudoPred[i] == PseudoPred(s, idx + i + 1);
    forall i | 0 <= i < 64 ensures tokens[i] == IsToken(s, idx + i) {
      assert shiftedPseudoPred[i] == PseudoPred(s, idx + i);
    }
  }

  // ----- flattening

  const U32_SIZE := 0x1_0000_0000

  /** `p` without its first `k` entries, as far as it has them. */
  function Drop(p: seq<nat>, k: nat): seq<nat> {
    if k <= |p| then p[k..] else []
  }

  /** Entry `k` of `p`, or 64 past the end. */
  function Nth(p: seq<nat>, k: nat): nat {
    if k < |p| then p[k] else 64
  }

  lemma DropNext(p: seq<nat>, k: nat)
    ensures Drop(Drop(p, k), 1) == Drop(p, k + 1)
    ensures Nth(Drop(p, k), 0) == Nth(p, k)
  {}

  function Wrap32(x: nat): nat {
    x % 0x1_0000_0000
  }

  /** `v` holds the entries of `p` from entry `k` on. */
  ghost predicate Taken(v: seq<nat>, p: seq<nat>, k: nat) {
    forall j :: 0 <= j < |v| ==> v[j] == Nth(p, k + j)
  }

  /** Takes out the lowest set bit; its position is 64 when the word is zero. */
  method TakeLowest(bits: Mask, v: seq<nat>, ghost p: seq<nat>, ghost k: nat) returns (w: seq<nat>, rest: Mask)
    requires |bits| == 64 && Positions(bits, 64) == Drop(p, k + |v|) && Taken(v, p, k)
    ensures |w| == |v| + 1 && Taken(w, p, k)
    ensures |rest| == 64 && Positions(rest, 64) == Drop(p, k + |w|)
  {
    w := v + [TrailingZeros(bits)];
    rest := And(bits, WrappingSub1(bits));
    LowestTaken(bits);
    DropNext(p, k + |v|);
  }

  lemma LowestTaken(bits: Mask)
    requires |bits| == 64
    ensures TrailingZeros(bits) == Nth(Positions(bits, 64), 0)
    ensures Positions(And(bits, WrappingSub1(bits)), 64) == Drop(Positions(bits, 64), 1)
  {
    if IsZero(bits) {
      ZeroHasNoPositions(bits);
      ZeroHasNoPositions(And(bits, WrappingSub1(bits)));
    } else {
      ClearLowest(bits);
      PositionsTail(bits, 64);
    }
  }

  lemma ZeroHasNoPositions(bits: Mask)
    requires |bits| == 64
    ensures IsZero(bits) <==> Positions(bits, 64) == []
  {
    if IsZero(bits) {
      assert bits[..64] == bits;
      PositionsOfZero(bits, 64);
    } else {
      PositionsTail(bits, 64);
    }
  }

  method TakeEight(bits: Mask, ghost p: seq<nat>, ghost k: nat) returns (v: seq<nat>, rest: Mask)
    requires |bits| == 64 && Positions(bits, 64) == Drop(p, k)
    ensures |v| == 8 && Taken(v, p, k)
    ensures |rest| == 64 && Positions(rest, 64) == Drop(p, k + 8)
  {
    v, rest := TakeFour(bits, [], p, k);
    assert |v| == 4;
    v, rest := TakeFour(rest, v, p, k);
  }

  method TakeFour(bits: Mask, v: seq<nat>, ghost p: seq<nat>, ghost k: nat) returns (w: seq<nat>, rest: Mask)
    requires |bits| == 64 && Positions(bits, 64) == Drop(p, k + |v|) && Taken(v, p, k)
    ensures |w| == |v| + 4 && Taken(w, p, k)
    ensures |rest| == 64 && Positions(rest, 64) == Drop(p, k + |w|)
  {
    w, rest := TakeLowest(bits, v, p, k);
    w, rest := TakeLowest(rest, w, p, k);
    w, rest := TakeLowest(rest, w, p, k);
    w, rest := TakeLowest(rest, w, p, k);
  }

  /**
   Appends `idx - 64 + i`, in 32 bits, for every set bit `i`, in increasing order. Eight entries are stored
   at a time into 64 reserved slots; the surplus is cut off by the length set from the bit count.
   */
  method FlattenBits(base: seq<nat>, idx: nat, bits: Mask) returns (r: seq<nat>)
    requires |bits| == 64 && idx < U32_SIZE
    ensures Flattened(r, base, idx, bits)
  {
    ghost var all := Positions(bits, 64);
    var cnt := Hamming(bits);
    HammingIsLength(bits);
    var l := |base|;
    var idxMinus64 := Wrap32(idx + U32_SIZE - 64);
    var raw: seq<nat> := base + seq(64, _ => 0);
    var rest := bits;
    ghost var done: nat := 0;
    while !IsZero(rest)
      invariant |rest| == 64 && |raw| == |base| + 64
      invariant l == |base| + 8 * done
      invariant Positions(rest, 64) == Drop(all, 8 * done)
      invariant Stored(raw, base, idxMinus64, all, 8 * done)
      decreases |all| - 8 * done
    {
      NonzeroHasPositions(rest, all, done);
      raw, rest := StoreNextEight(raw, l, idxMinus64, rest, base, all, done);
      l := l + 8;
      done := done + 1;
    }
    r := raw[..|base| + cnt];
    NothingLeft(rest, all, done);
    AllStored(raw, base, idx, idxMinus64, bits, 8 * done);
  }

  /** One round: takes eight positions out of `bits` and stores them, each plus `off`, at `l`. */
  method StoreNextEight(raw: seq<nat>, l: nat, off: nat, bits: Mask,
                        ghost base: seq<nat>, ghost all: seq<nat>, ghost done: nat)
    returns (stored: seq<nat>, rest: Mask)
    requires |bits| == 64 && Positions(bits, 64) == Drop(all, 8 * done)
    requires l == |base| + 8 * done && l + 8 <= |raw|
    requires Stored(raw, base, off, all, 8 * done)
    ensures |rest| == 64 && Positions(rest, 64) == Drop(all, 8 * (done + 1))
    ensures |stored| == |raw| && Stored(stored, base, off, all, 8 * (done + 1))
  {
    var v;
    v, rest := TakeEight(bits, all, 8 * done);
    StoreExtends(raw, base, off, all, 8 * done, v);
    stored := StoreEight(raw, l, off, v);
  }

  /** `r` is `base` followed by the positions of `bits`, counted from `idx - 64` in 32 bits. */
  ghost predicate Flattened(r: seq<nat>, base: seq<nat>, idx: nat, bits: Mask)
    requires |bits| == 64
  {
    var all := Positions(bits, 64);
    |r| == |base| + |all| && base <= r
    && forall k :: 0 <= k < |all| ==> r[|base| + k] == Wrap32(idx + U32_SIZE - 64 + all[k])
  }

  lemma HammingIsLength(bits: Mask)
    requires |bits| == 64
    ensures Hamming(bits) == |Positions(bits, 64)|
  {
    assert bits[..64] == bits;
    HammingCounts(bits, 64);
  }

  /** A word that is not zero has entries left, so at most 56 of the 64 slots are used. */
  lemma NonzeroHasPositions(rest: Mask, all: seq<nat>, done: nat)
    requires |rest| == 64 && !IsZero(rest) && Positions(rest, 64) == Drop(all, 8 * done) && |all| <= 64
    ensures 8 * done < |all| && done <= 7
  {
    ZeroHasNoPositions(rest);
  }

  /** The first `n` of the entries `all`, each plus `off`, have been stored after `base`. */
  ghost predicate Stored(raw: seq<nat>, base: seq<nat>, off: nat, all: seq<nat>, n: nat) {
    |base| + |all| <= |raw| && base <= raw &&
    forall k :: 0 <= k < |all| && k < n ==> raw[|base| + k] == Wrap32(off + all[k])
  }

  lemma StoreExtends(raw: seq<nat>, base: seq<nat>, off: nat, all: seq<nat>, n: nat, v: seq<nat>)
    requires Stored(raw, base, off, all, n) && |base| + n + 8 <= |raw|
    requires |v| == 8 && Taken(v, all, n)
    ensures Stored(StoreEight(raw, |base| + n, off, v), base, off, all, n + 8)
  {
    var l := |base| + n;
    var r := StoreEight(raw, l, off, v);
    assert base == r[..|base|] by {
      assert r[..l][..|base|] == raw[..l][..|base|] == base;
    }
    forall k | 0 <= k < |all| && k < n + 8 ensures r[|base| + k] == Wrap32(off + all[k]) {
      if k < n {
        assert r[..l][|base| + k] == raw[..l][|base| + k];
      } else {
        assert r[l + (k - n)] == Wrap32(off + v[k - n]);
      }
    }
  }

  lemma NothingLeft(rest: Mask, all: seq<nat>, done: nat)
    requires |rest| == 64 && IsZero(rest) && Positions(rest, 64) == Drop(all, 8 * done)
    ensures |all| <= 8 * done
  {
    ZeroHasNoPositions(rest);
  }

  /** Once all positions have been stored, wrapping the offset first has made no difference. */
  lemma AllStored(raw: seq<nat>, base: seq<nat>, idx: nat, off: nat, bits: Mask, n: nat)
    requires |bits| == 64 && off == Wrap32(idx + U32_SIZE - 64)
    requires Stored(raw, base, off, Positions(bits, 64), n) && |Positions(bits, 64)| <= n
    ensures Flattened(raw[..|base| + |Positions(bits, 64)|], base, idx, bits)
  {
    var all := Positions(bits, 64);
    var r := raw[..|base| + |all|];
    assert base == r[..|base|];
    forall k | 0 <= k < |all| ensures r[|base| + k] == Wrap32(idx + U32_SIZE - 64 + all[k]) {
      StoredAt(raw, base, idx, off, all, n, k);
    }
  }

  lemma StoredAt(raw: seq<nat>, base: seq<nat>, idx: nat, off: nat, all: seq<nat>, n: nat, k: nat)
    requires Stored(raw, base, off, all, n) && k < n && k < |all| && off == Wrap32(idx + U32_SIZE - 64)
    ensures raw[|base| + k] == Wrap32(idx + U32_SIZE - 64 + all[k])
  {
    WrapTwice(idx + U32_SIZE - 64, all[k]);
  }

  lemma WrapTwice(x: nat, p: nat)
    ensures Wrap32(Wrap32(x) + p) == Wrap32(x + p)
  {
    var y := Wrap32(x) + p;
    DivModUnique(x + p, U32_SIZE, x / U32_SIZE + y / U32_SIZE, y % U32_SIZE);
  }

  /** One register store of eight 32-bit sums at position `l`. */
  function StoreEight(raw: seq<nat>, l: nat, base: nat, v: seq<nat>): (r: seq<nat>)
    requires l + 8 <= |raw| && |v| == 8
    ensures |r| == |raw| && r[..l] == raw[..l]
    ensures forall j :: 0 <= j < 8 ==> r[l + j] == Wrap32(base + v[j])
  {
    raw[..l] + seq(8, j requires 0 <= j < 8 => Wrap32(base + v[j])) + raw[l + 8..]
  }

  // ----- the whole input

  /** What is carried from one block to the next. */
  datatype Carried = Carried(
    prevOdd: Mask, prevInside: Mask, prevPseudoPred: Mask,
    structurals: Mask, errorMask: Mask,
    hasError: Register, previous: Processed,
    indexes: seq<nat>)

  const INITIAL := Carried(Zeros(64), Zeros(64), Bit(64, true), Zeros(64), Zeros(64), Set1(0), DEFAULT, [0])

  /** The state after the blocks of `s` below `idx`; the tokens of the last of them are not yet flattened. */
  ghost predicate UpTo(s: seq<byte>, idx: nat, c: Carried) {
    && idx <= |s| && idx % 64 == 0
    && c.prevOdd == Bit(64, Escaped(s, idx))
    && c.prevInside == seq(64, _ => InString(s, idx))
    && c.prevPseudoPred == Bit(64, PseudoPred(s, idx))
    && |c.errorMask| == |c.structurals| == 64
    && !IsZero(c.errorMask) == HasControlInString(s, idx)
    && (Clean(c.hasError) <==> StateAfter(s, idx).Expect?)
    && Linked(s, idx, c.previous)
    && (if idx == 0 then IsZero(c.structurals) && c.indexes == [0]
        else c.indexes == [0] + Wrapped(Tokens(s, idx - 64))
             && forall i :: 0 <= i < 64 ==> c.structurals[i] == IsToken(s, idx - 64 + i))
  }

  /** Positions as they are stored: in 32 bits. */
  function Wrapped(t: seq<nat>): (w: seq<nat>)
    ensures |w| == |t|
  {
    seq(|t|, k requires 0 <= k < |t| => Wrap32(t[k]))
  }

  lemma InitialUpTo(s: seq<byte>)
    ensures UpTo(s, 0, INITIAL)
  {
    assert Zeros(64) == Bit(64, false);
  }

  /** Flattening the pending block brings the index up to date. */
  method FlattenPending(ghost s: seq<byte>, idx: nat, c: Carried) returns (indexes: seq<nat>)
    requires UpTo(s, idx, c)
    ensures indexes == [0] + Wrapped(Tokens(s, idx))
  {
    indexes := FlattenBits(c.indexes, Wrap32(idx), c.structurals);
    if idx == 0 {
      assert c.structurals[..64] == c.structurals;
      PositionsOfZero(c.structurals, 64);
    } else {
      AppendsTokens(s, idx - 64, c.indexes, c.structurals, indexes);
    }
  }

  lemma AppendsTokens(s: seq<byte>, idx: nat, base: seq<nat>, tokens: Mask, r: seq<nat>)
    requires idx + 64 <= |s| && |tokens| == 64 && base == [0] + Wrapped(Tokens(s, idx))
    requires forall i :: 0 <= i < 64 ==> tokens[i] == IsToken(s, idx + i)
    requires Flattened(r, base, Wrap32(idx + 64), tokens)
    ensures r == [0] + Wrapped(Tokens(s, idx + 64))
  {
    TokensOfBlock(s, idx, tokens, 64);
    var want := [0] + Wrapped(Tokens(s, idx + 64));
    forall k | 0 <= k < |r| ensures r[k] == want[k] {
      if 1 <= k < |base| {
        assert Tokens(s, idx)[k - 1] == Tokens(s, idx + 64)[k - 1];
      } else if k >= |base| {
        var p := Positions(tokens, 64)[k - |base|];
        assert r[|base| + (k - |base|)] == Wrap32(Wrap32(idx + 64) + U32_SIZE - 64 + p);
        WrapOffset(idx, p);
        assert Tokens(s, idx + 64)[|Tokens(s, idx)| + (k - |base|)] == idx + p;
      }
    }
  }

  lemma WrapOffset(idx: nat, p: nat)
    ensures Wrap32(Wrap32(idx + 64) + U32_SIZE - 64 + p) == Wrap32(idx + p)
  {
    WrapTwice(idx + 64, U32_SIZE - 64 + p);
  }

  lemma {:induction false} TokensOfBlock(s: seq<byte>, idx: nat, tokens: Mask, n: nat)
    requires idx + 64 <= |s| && |tokens| == 64 && n <= 64
    requires forall i :: 0 <= i < 64 ==> tokens[i] == IsToken(s, idx + i)
    ensures |Tokens(s, idx + n)| == |Tokens(s, idx)| + |Positions(tokens, n)|
    ensures Tokens(s, idx) <= Tokens(s, idx + n)
    ensures forall k :: 0 <= k < |Positions(tokens, n)| ==>
              Tokens(s, idx + n)[|Tokens(s, idx)| + k] == idx + Positions(tokens, n)[k]
  {
    if n > 0 { TokensOfBlock(s, idx, tokens, n - 1); }
  }

  /** One block: the body of the block loop. */
  method ProcessBlock(ghost s: seq<byte>, idx: nat, input: SimdInput, c: Carried) returns (d: Carried)
    requires UpTo(s, idx, c) && IsBlock(s, idx, input)
    ensures UpTo(s, idx + 64, d)
  {
    var hasError, previous := CheckUtf8(s, idx, input, c.hasError, c.previous);
    var oddEnds, prevOdd := FindOddBackslashSequences(s, idx, input, c.prevOdd);
    var quoteMask, quoteBits, prevInside, errorMask :=
      FindQuoteMaskAndBits(s, idx, input, oddEnds, c.prevInside, c.errorMask);
    var indexes := FlattenPending(s, idx, c);
    var whitespace, structurals := FindWhitespaceAndStructurals(input);
    assert forall i :: 0 <= i < 64 ==> input.Bytes()[i] == s[idx + i];
    var tokens, prevPseudoPred :=
      FinalizeStructurals(s, idx, structurals, whitespace, quoteMask, quoteBits, c.prevPseudoPred);
    d := Carried(prevOdd, prevInside, prevPseudoPred, tokens, errorMask, hasError, previous, indexes);
  }

  /**
   What the UTF-8 check accepts: well-formed input, and also an input that fills its last block
   exactly and ends inside an unfinished sequence, since no later byte reveals that.
   */
  predicate Utf8Accepted(s: seq<byte>) {
    StateAfter(s, |s|).Expect? && (|s| % 64 == 0 || StateAfter(s, |s|) == START)
  }

  /** The structural index by the one-byte-at-a-time reading: a root entry, then every token. */
  function StructuralIndex(s: seq<byte>): Result<seq<nat>> {
    if InString(s, |s|) then Err(Syntax)
    else if Tokens(s, |s|) == [] then Err(EOF)
    else if HasControlInString(s, |s|) then Err(Syntax)
    else if !Utf8Accepted(s) then Err(InvalidUTF8)
    else Ok([0] + Tokens(s, |s|))
  }

  /** The same as the code stores it, in 32 bits, with its test of the last entry. */
  function StoredIndex(s: seq<byte>): Result<seq<nat>> {
    var t := Tokens(s, |s|);
    if InString(s, |s|) then Err(Syntax)
    else if t == [] then Err(EOF)
    else if Wrap32(t[|t| - 1]) > Wrap32(|s|) then Err(InternalError)
    else if HasControlInString(s, |s|) then Err(Syntax)
    else if !Utf8Accepted(s) then Err(InvalidUTF8)
    else Ok([0] + Wrapped(t))
  }

  /** Each error at an input: `"`, nothing, a control byte in a string, and a byte that starts no sequence. */
  lemma ErrorKinds()
    ensures StructuralIndex([QUOTE]) == Err(Syntax) && StructuralIndex([]) == Err(EOF)
    ensures StructuralIndex([QUOTE, 0x1f, QUOTE]) == Err(Syntax) && StructuralIndex([0xff]) == Err(InvalidUTF8)
  {
    var open: seq<byte>, control: seq<byte>, bad: seq<byte> := [QUOTE], [QUOTE, 0x1f, QUOTE], [0xff];
    assert Run(open, 0) == 0 && InString(open, 1);
    assert Run(control, 0) == 0 && Run(control, 1) == 0 && Run(control, 2) == 0;
    assert InString(control, 1) && InString(control, 2) && !InString(control, 3);
    assert Tokens(control, 1) == [0] && Tokens(control, 2) == [0];
    assert Run(bad, 0) == 0 && !InString(bad, 0) && !InString(bad, 1) && IsToken(bad, 0);
    assert StateAfter(bad, 0) == START && StateAfter(bad, 1) == Bad;
  }

  /** All tokens start below 4 GB, and the length of the input, in 32 bits, does not fall below the last of them. */
  predicate Addressed(s: seq<byte>) {
    var t := Tokens(s, |s|);
    t == [] || (t[|t| - 1] < U32_SIZE && t[|t| - 1] <= Wrap32(|s|))
  }

  /** Cut to 32 bits, positions stay what they are exactly when the last of them does. */
  lemma WrappedExact(s: seq<byte>)
    ensures var t := Tokens(s, |s|); Wrapped(t) == t <==> t == [] || t[|t| - 1] < U32_SIZE
  {
    var t := Tokens(s, |s|);
    TokensExact(s, |s|);
    if t != [] {
      assert Wrapped(t)[|t| - 1] == Wrap32(t[|t| - 1]);
      if t[|t| - 1] < U32_SIZE {
        assert forall k :: 0 <= k < |t| ==> t[k] <= t[|t| - 1];
      }
    }
  }

  /** When what is stored is the structural index, or the error it calls for. */
  lemma StoredExact(s: seq<byte>)
    ensures var t := Tokens(s, |s|);
            StoredIndex(s) == StructuralIndex(s)
            <==> InString(s, |s|) || t == []
                 || (Wrap32(t[|t| - 1]) <= Wrap32(|s|)
                     && (HasControlInString(s, |s|) || !Utf8Accepted(s) || t[|t| - 1] < U32_SIZE))
  {
    var t := Tokens(s, |s|);
    WrappedExact(s);
    assert ([0] + Wrapped(t))[1..] == Wrapped(t) && ([0] + t)[1..] == t;
  }

  lemma AddressedIndexStored(s: seq<byte>)
    requires Addressed(s)
    ensures StoredIndex(s) == StructuralIndex(s)
  {
    StoredExact(s);
  }

  /** In particular below 4 GB: nothing wraps around, and the test of the last entry never fails. */
  lemma SmallIndexStored(s: seq<byte>)
    requires |s| < U32_SIZE
    ensures Addressed(s) && StoredIndex(s) == StructuralIndex(s)
  {
    TokensExact(s, |s|);
    var t := Tokens(s, |s|);
    if t != [] {
      assert t[|t| - 1] in t && t[|t| - 1] < |s|;
    }
    StoredExact(s);
  }

  lemma BracketToken(s: seq<byte>, p: nat)
    requires p < |s| && !InString(s, p) && IsStructural(s[p])
    ensures !InString(s, p + 1) && Tokens(s, p + 1) == Tokens(s, p) + [p]
  {}

  /** An empty array behind `n` spaces. */
  lemma SpacesThenArray(s: seq<byte>, n: nat)
    requires |s| == n + 2 && (forall k :: 0 <= k < n ==> s[k] == SPACE) && s[n] == LBRACKET && s[n + 1] == RBRACKET
    ensures !InString(s, |s|) && Tokens(s, |s|) == [n, n + 1]
  {
    var spaces := s[..n];
    SpacesAddNothing([], spaces, n);
    ScanOfPrefix(spaces, s, n);
    assert Tokens(s, n) == [] && !InString(s, n);
    BracketToken(s, n);
    BracketToken(s, n + 1);
  }

  lemma PrintableAccepted(s: seq<byte>)
    requires forall k :: 0 <= k < |s| ==> 0x20 <= s[k] < 0x80
    ensures !HasControlInString(s, |s|) && Utf8Accepted(s)
  {
    AsciiKeepsStart(s, 0, |s|);
  }

  /** An empty array in front of `n` spaces. */
  lemma ArrayThenSpaces(s: seq<byte>, n: nat)
    requires s == [LBRACKET, RBRACKET] + seq<byte>(n, _ => SPACE)
    ensures !InString(s, |s|) && Tokens(s, |s|) == [0, 1] && !HasControlInString(s, |s|) && Utf8Accepted(s)
  {
    var a: seq<byte> := [LBRACKET, RBRACKET];
    SpacesThenArray(a, 0);
    SpacesAddNothing(a, s, n + 2);
    PrintableAccepted(s);
  }

  /** An input of exactly 4 GB, whose length is 0 in 32 bits: the last branch before the content is looked at. */
  lemma EndWraps(s: seq<byte>)
    requires s == [LBRACKET, RBRACKET] + seq<byte>(U32_SIZE - 2, _ => SPACE)
    ensures StructuralIndex(s) == Ok([0, 0, 1]) && StoredIndex(s) == Err(InternalError)
  {
    ArrayThenSpaces(s, U32_SIZE - 2);
    assert [0] + [0, 1] == [0, 0, 1];
  }

  /** Beyond 4 GB an input is accepted with positions that are not those of the tokens. */
  lemma LargeIndexWraps(s: seq<byte>)
    requires s == seq<byte>(U32_SIZE - 1, _ => SPACE) + [LBRACKET, RBRACKET]
    ensures StructuralIndex(s) == Ok([0, U32_SIZE - 1, U32_SIZE]) && StoredIndex(s) == Ok([0, U32_SIZE - 1, 0])
  {
    var n := U32_SIZE - 1;
    SpacesThenArray(s, n);
    PrintableAccepted(s);
    assert Wrapped([n, n + 1]) == [n, 0];
    assert [0] + [n, n + 1] == [0, n, n + 1] && [0] + [n, 0] == [0, n, 0];
  }

  /** The bytes `["]",`. */
  function MisreadHead(): seq<byte> {
    [LBRACKET, QUOTE, RBRACKET, QUOTE, COMMA]
  }

  lemma MisreadHeadTokens()
    ensures var h := MisreadHead(); Tokens(h, 5) == [0, 1, 4] && !InString(h, 5)
  {
    var h := MisreadHead();
    assert Run(h, 0) == 0 && Run(h, 1) == 0 && Run(h, 2) == 0 && Run(h, 3) == 0 && Run(h, 4) == 0;
    assert !InString(h, 0) && !InString(h, 1) && InString(h, 2) && InString(h, 3) && !InString(h, 4);
    assert IsToken(h, 0) && IsToken(h, 1) && !IsToken(h, 2) && !IsToken(h, 3) && IsToken(h, 4);
    assert Tokens(h, 1) == [0] && Tokens(h, 2) == [0, 1] && Tokens(h, 3) == [0, 1] && Tokens(h, 4) == [0, 1];
  }

  /** The number and the bracket 4 GB behind the string are stored with the positions of its first two bytes. */
  lemma MisreadIndex(s: seq<byte>)
    requires s == MisreadHead() + seq<byte>(U32_SIZE - 4, _ => SPACE) + [0x37, RBRACKET]
    ensures StructuralIndex(s) == Ok([0, 0, 1, 4, U32_SIZE + 1, U32_SIZE + 2])
    ensures StoredIndex(s) == Ok([0, 0, 1, 4, 1, 2])
  {
    var h, n := MisreadHead(), U32_SIZE + 1;
    var t := s[..n];
    MisreadHeadTokens();
    SpacesAddNothing(h, t, n);
    ScanOfPrefix(t, s, n);
    DigitToken(s, n);
    BracketToken(s, n + 1);
    PrintableAccepted(s);
    assert Tokens(s, |s|) == [0, 1, 4, n, n + 1];
    assert Wrapped([0, 1, 4, n, n + 1]) == [0, 1, 4, 1, 2];
    assert [0] + [0, 1, 4, n, n + 1] == [0, 0, 1, 4, n, n + 1] && [0] + [0, 1, 4, 1, 2] == [0, 0, 1, 4, 1, 2];
  }

  lemma DigitToken(s: seq<byte>, p: nat)
    requires 0 < p < |s| && !InString(s, p) && IsDigit(s[p]) && s[p - 1] == SPACE
    ensures !InString(s, p + 1) && Tokens(s, p + 1) == Tokens(s, p) + [p]
  {}

  /** The input as the block loop sees it: filled up with spaces to whole blocks. */
  ghost function Padded(s: seq<byte>): seq<byte> {
    s + seq((64 - |s| % 64) % 64, _ => SPACE)
  }

  /** The filling adds no token, no quote and no control byte; it only brings out an unfinished sequence. */
  lemma PaddedAgrees(s: seq<byte>)
    ensures |Padded(s)| % 64 == 0 && |s| <= |Padded(s)| < |s| + 64
    ensures InString(Padded(s), |Padded(s)|) == InString(s, |s|)
    ensures Tokens(Padded(s), |Padded(s)|) == Tokens(s, |s|)
    ensures forall p :: 0 <= p < |Padded(s)| && IsToken(Padded(s), p) ==> p < |s|
    ensures HasControlInString(Padded(s), |Padded(s)|) == HasControlInString(s, |s|)
    ensures StateAfter(Padded(s), |Padded(s)|).Expect? <==> Utf8Accepted(s)
  {
    var t := Padded(s);
    assert s <= t;
    SpacesAddNothing(s, t, |t|);
    TokensInPrefix(s, t);
    ControlOfPrefix(s, t);
    PaddedUtf8(s, t);
  }

  lemma TokensInPrefix(s: seq<byte>, t: seq<byte>)
    requires s <= t && forall k :: |s| <= k < |t| ==> t[k] == SPACE
    ensures forall p :: 0 <= p < |t| && IsToken(t, p) ==> p < |s|
  {
    SpacesAddNothing(s, t, |t|);
  }

  lemma PaddedUtf8(s: seq<byte>, t: seq<byte>)
    requires s <= t && forall k :: |s| <= k < |t| ==> t[k] == SPACE
    requires |t| == |s| <==> |s| % 64 == 0
    ensures StateAfter(t, |t|).Expect? <==> Utf8Accepted(s)
  {
    StateOfPrefix(s, t, |s|);
    SpacesFinish(s, t, |t|);
  }

  lemma {:induction false} SpacesAddNothing(s: seq<byte>, t: seq<byte>, i: nat)
    requires s <= t && |s| <= i <= |t|
    requires forall k :: |s| <= k < |t| ==> t[k] == SPACE
    ensures InString(t, i) == InString(s, |s|) && Tokens(t, i) == Tokens(s, |s|)
    ensures forall p :: |s| <= p < i ==> !IsToken(t, p)
  {
    if i == |s| {
      ScanOfPrefix(s, t, |s|);
    } else {
      SpacesAddNothing(s, t, i - 1);
      assert t[i - 1] == SPACE;
    }
  }

  lemma ControlOfPrefix(s: seq<byte>, t: seq<byte>)
    requires s <= t && forall k :: |s| <= k < |t| ==> t[k] == SPACE
    ensures HasControlInString(t, |t|) == HasControlInString(s, |s|)
  {
    forall i | 0 <= i < |s| ensures InString(t, i + 1) == InString(s, i + 1) && s[i] == t[i] {
      ScanOfPrefix(s, t, i + 1);
    }
    if HasControlInString(s, |s|) {
      var i :| 0 <= i < |s| && InString(s, i + 1) && s[i] <= 0x1f;
      assert InString(t, i + 1) && t[i] <= 0x1f;
    }
  }

  lemma {:induction false} SpacesFinish(s: seq<byte>, t: seq<byte>, i: nat)
    requires s <= t && |s| <= i <= |t|
    requires forall k :: |s| <= k < |t| ==> t[k] == SPACE
    ensures i == |s| ==> StateAfter(t, i) == StateAfter(s, |s|)
    ensures i > |s| ==> (StateAfter(t, i).Expect? <==> StateAfter(s, |s|) == START)
    ensures i > |s| && StateAfter(t, i).Expect? ==> StateAfter(t, i) == START
  {
    if i == |s| {
      StateOfPrefix(s, t, |s|);
    } else {
      SpacesFinish(s, t, i - 1);
      DueZeroIsStart(t, i - 1);
      assert t[i - 1] == SPACE;
    }
  }

  lemma CleanTest(hasError: Register)
    ensures TestZ(hasError, hasError) <==> Clean(hasError)
  {
    forall i | 0 <= i < LANES ensures BitAnd(hasError[i], hasError[i]) == hasError[i] {
      BitAndSelf(hasError[i]);
    }
  }

  lemma FullBlock(input: seq<byte>, idx: nat)
    requires idx + 64 <= |input|
    ensures IsBlock(Padded(input), idx, FillInput(input[idx..]))
  {
    assert input[idx..][..64] == Padded(input)[idx..idx + 64];
  }

  lemma LastBlock(input: seq<byte>, idx: nat)
    requires idx % 64 == 0 && idx < |input| <= idx + 64
    ensures |Padded(input)| == idx + 64
    ensures IsBlock(Padded(input), idx, FillInput(input[idx..] + seq(64 - (|input| - idx), _ => SPACE)))
  {
    var pad := 64 - (|input| - idx);
    assert (64 - |input| % 64) % 64 == pad by { FillLength(|input|, idx); }
    var fill := seq<byte>(pad, _ => SPACE);
    assert Padded(input) == input + fill;
    assert (input + fill)[idx..] == input[idx..] + fill;
  }

  lemma FillLength(len: nat, idx: nat)
    requires idx % 64 == 0 && idx < len <= idx + 64
    ensures (64 - len % 64) % 64 == 64 - (len - idx)
  {
    if len < idx + 64 { assert len % 64 == len - idx; } else { assert len % 64 == 0; }
  }

  /** All blocks of the input, the last one filled up with spaces. */
  method ScanBlocks(input: seq<byte>) returns (idx: nat, c: Carried)
    ensures idx == |Padded(input)| && UpTo(Padded(input), idx, c)
  {
    var len := |input|;
    ghost var s := Padded(input);
    var lenminus64 := if len < 64 then 0 else len - 64;
    idx := 0;
    c := INITIAL;
    InitialUpTo(s);
    while idx < lenminus64
      invariant idx % 64 == 0 && idx <= len && (idx < len || len == 0)
      invariant UpTo(s, idx, c)
    {
      FullBlock(input, idx);
      c := ProcessBlock(s, idx, FillInput(input[idx..]), c);
      idx := idx + 64;
    }
    if idx < len {
      var tmpbuf := input[idx..] + seq(64 - (len - idx), _ => SPACE);
      LastBlock(input, idx);
      c := ProcessBlock(s, idx, FillInput(tmpbuf), c);
      idx := idx + 64;
    }
  }

  /**
   Stage 1 finds exactly the structural index of the one-byte-at-a-time reading, with positions in 32 bits;
   where the input is addressed, as every one below 4 GB, those are the positions.
   */
  method FindStructuralBits(input: seq<byte>) returns (r: Result<seq<nat>>)
    ensures r == StoredIndex(input)
    ensures Addressed(input) || |input| < U32_SIZE ==> r == StructuralIndex(input)
  {
    var idx, c := ScanBlocks(input);
    r := Finish(input, idx, c);
    if |input| < U32_SIZE { SmallIndexStored(input); }
    if Addressed(input) { AddressedIndexStored(input); }
  }

  /** The checks after the last block. */
  method Finish(input: seq<byte>, idx: nat, c: Carried) returns (r: Result<seq<nat>>)
    requires idx == |Padded(input)| && UpTo(Padded(input), idx, c)
    ensures r == StoredIndex(input)
  {
    PaddedAgrees(input);
    assert c.prevInside[0] == InString(Padded(input), idx);
    if !IsZero(c.prevInside) {
      return Err(Syntax);
    }
    var indexes := FlattenPending(Padded(input), idx, c);
    if |indexes| == 1 {
      return Err(EOF);
    }
    if indexes[|indexes| - 1] > Wrap32(|input|) {
      return Err(InternalError);
    }
    if !IsZero(c.errorMask) {
      return Err(Syntax);
    }
    CleanTest(c.hasError);
    if TestZ(c.hasError, c.hasError) {
      return Ok(indexes);
    } else {
      return Err(InvalidUTF8);
    }
  }

  // ----- where the UTF-8 check and RFC 3629 part

  /** What may follow the leading byte `a`, E0 or above. */
  predicate SecondFits(a: byte, b: byte) {
    (if a == 0xe0 then 0xa0 else if a == 0xf0 then 0x90 else 0x80)
    <= b <= (if a == 0xed then 0x9f else if a == 0xf4 then 0x8f else 0xbf)
  }

  /** How many bytes at the end begin a sequence without finishing it. C0 and C1 begin one that no byte can finish. */
  function UnfinishedTail(s: seq<byte>): (n: nat)
    ensures n <= 3 && n <= |s|
  {
    var e := |s|;
    if e >= 1 && 0xc0 <= s[e - 1] <= 0xf4 then 1
    else if e >= 2 && 0xe0 <= s[e - 2] <= 0xf4 && SecondFits(s[e - 2], s[e - 1]) then 2
    else if e >= 3 && 0xf0 <= s[e - 3] <= 0xf4 && SecondFits(s[e - 3], s[e - 2]) && IsTail(s[e - 1]) then 3
    else 0
  }

  /** The input is well-formed up to a sequence its last one to three bytes begin and do not finish. */
  predicate EndsUnfinished(s: seq<byte>) {
    UnfinishedTail(s) > 0 && WellFormed(s[..|s| - UnfinishedTail(s)])
  }

  lemma PrefixWellFormed(s: seq<byte>, n: nat)
    requires n <= |s|
    ensures WellFormed(s[..n]) <==> StateAfter(s, n) == START
  {
    AutomatonRecognises(s[..n], 0);
    StateOfPrefix(s[..n], s, n);
  }

  lemma LastStates(s: seq<byte>, j: nat)
    requires j <= |s|
    ensures var q := StateAfter(s, j);
            q.Expect? ==> q.due <= 3 && if q.due == 0 then q == START else q.lo >= 0x80
    ensures j > 0 ==> StateAfter(s, j) == Next(StateAfter(s, j - 1), s[j - 1])
  {
    DueZeroIsStart(s, j);
    DueBound(s, j);
  }

  /** The automaton waits for continuation bytes after the first `j` bytes. */
  predicate Waits(s: seq<byte>, j: nat)
    requires j <= |s|
  {
    StateAfter(s, j).Expect? && StateAfter(s, j).due > 0
  }

  /** A leading byte at the end waits exactly where a sequence may start. */
  lemma WaitsOne(s: seq<byte>, j: nat)
    requires j < |s| && 0xc0 <= s[j] <= 0xf4
    ensures Waits(s, j + 1) <==> StateAfter(s, j) == START
    ensures StateAfter(s, j + 1).Expect? ==> StateAfter(s, j + 1) == Lead(s[j])
  {
    LastStates(s, j);
  }

  /** No other byte begins a wait; a second byte keeps the one of a leading byte it fits. */
  lemma WaitsOn(s: seq<byte>, j: nat)
    requires j < |s| && !(0xc0 <= s[j] <= 0xf4)
    ensures Waits(s, j + 1) ==> j > 0 && Waits(s, j) && IsTail(s[j]) && StateAfter(s, j).due >= 2
    ensures Waits(s, j + 1) ==> StateAfter(s, j + 1) == Expect(StateAfter(s, j).due - 1, 0x80, 0xbf)
  {
    LastStates(s, j);
  }

  /** The test of the last bytes tells exactly where the automaton still waits for continuation bytes. */
  lemma UnfinishedExact(s: seq<byte>)
    ensures EndsUnfinished(s) <==> Waits(s, |s|)
  {
    var e := |s|;
    PrefixWellFormed(s, e - UnfinishedTail(s));
    if e == 0 {
    } else if 0xc0 <= s[e - 1] <= 0xf4 {
      WaitsOne(s, e - 1);
    } else {
      WaitsOn(s, e - 1);
      if e >= 2 {
        if 0xc0 <= s[e - 2] <= 0xf4 {
          SecondKeeps(s, e - 2);
        } else {
          WaitsOn(s, e - 2);
          if e >= 3 { ThirdKeeps(s, e - 3); }
        }
      }
    }
  }

  lemma SecondKeeps(s: seq<byte>, j: nat)
    requires j + 1 < |s| && 0xc0 <= s[j] <= 0xf4 && !(0xc0 <= s[j + 1] <= 0xf4)
    ensures Waits(s, j + 2) <==> StateAfter(s, j) == START && 0xe0 <= s[j] && SecondFits(s[j], s[j + 1])
    ensures Waits(s, j + 2) ==> StateAfter(s, j + 2) == Expect(Lead(s[j]).due - 1, 0x80, 0xbf)
  {
    WaitsOne(s, j);
    WaitsOn(s, j + 1);
    assert StateAfter(s, j + 2) == Next(StateAfter(s, j + 1), s[j + 1]);
  }

  lemma ThirdKeeps(s: seq<byte>, j: nat)
    requires j + 2 < |s| && !(0xc0 <= s[j + 1] <= 0xf4) && !(0xc0 <= s[j + 2] <= 0xf4)
    ensures Waits(s, j + 3) <==> StateAfter(s, j) == START && 0xf0 <= s[j] <= 0xf4
                                 && SecondFits(s[j], s[j + 1]) && IsTail(s[j + 2])
  {
    WaitsOn(s, j + 1);
    WaitsOn(s, j + 2);
    assert StateAfter(s, j + 3) == Next(StateAfter(s, j + 2), s[j + 2]);
    if 0xc0 <= s[j] <= 0xf4 {
      SecondKeeps(s, j);
    } else {
      WaitsOn(s, j);
      LastStates(s, j);
    }
  }

  /** Acceptance is well-formedness except for an unfinished sequence at the end of a full last block. */
  lemma Utf8Exact(s: seq<byte>)
    ensures (Utf8Accepted(s) <==> WellFormed(s)) <==> !(|s| % 64 == 0 && EndsUnfinished(s))
    ensures WellFormed(s) ==> Utf8Accepted(s)
  {
    AutomatonRecognises(s, 0);
    DueZeroIsStart(s, |s|);
    UnfinishedExact(s);
  }

  /** In particular the two agree on every input that ends in an ASCII byte. */
  lemma Utf8AfterAscii(s: seq<byte>)
    requires s == [] || IsAscii(s[|s| - 1])
    ensures Utf8Accepted(s) <==> WellFormed(s)
  {
    Utf8Exact(s);
    if s != [] { DueZeroIsStart(s, |s| - 1); }
  }

  /** A full block that ends in the first byte of a two-byte sequence is accepted although it is not well-formed. */
  lemma UnfinishedTailAccepted()
    ensures var s := seq<byte>(63, _ => SPACE) + [0xc3];
            Utf8Accepted(s) && !WellFormed(s)
  {
    var s := seq<byte>(63, _ => SPACE) + [0xc3];
    AsciiKeepsStart(s, 0, 63);
    assert StateAfter(s, 64) == Next(StateAfter(s, 63), s[63]);
    UnfinishedExact(s);
    Utf8Exact(s);
  }
}
