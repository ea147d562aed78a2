/** The vector UTF-8 check: 32 bytes at a time, with the previous register carried along. */
module Utf8Check {
  import opened Bytes
  import opened Masks
  import opened Simd
  import opened Utf8

  datatype Processed = Processed(rawbytes: Register, highNibbles: Register, carried: Register)

  const ZERO_REGISTER: Register := Set1(0)
  const DEFAULT := Processed(ZERO_REGISTER, ZERO_REGISTER, ZERO_REGISTER)

  const LENGTHS: seq<byte> := [1, 1, 1, 1, 1, 1, 1, 1, 0, 0, 0, 0, 2, 2, 3, 4]

  const INITIAL_MINS: seq<byte> :=
    [0x80, 0x80, 0x80, 0x80, 0x80, 0x80, 0x80, 0x80, 0x80, 0x80, 0x80, 0x80, 0xc2, 0x80, 0xe1, 0xf1]

  const SECOND_MINS: seq<byte> :=
    [0x80, 0x80, 0x80, 0x80, 0x80, 0x80, 0x80, 0x80, 0x80, 0x80, 0x80, 0x80, 0x7f, 0x7f, 0xa0, 0x90]

  /** No error recorded in any lane. */
  predicate Clean(hasError: Register) {
    forall i :: 0 <= i < LANES ==> hasError[i] == 0
  }

  // ----- what one lane sees

  /** The length a byte announces: 1 for ASCII, 0 for a continuation byte, else the sequence length. */
  function Length(b: byte): nat {
    if b < 0x80 then 1 else if b < 0xc0 then 0 else if b < 0xe0 then 2 else if b < 0xf0 then 3 else 4
  }

  function Less(a: nat, b: nat): nat {
    if a < b then 0 else a - b
  }

  /** What the lane with byte `b`, predecessor `p` and carried count `c` reports. */
  predicate LaneBad(p: byte, b: byte, c: byte) {
    || b > 0xf4
    || ((Signed(c) > Length(b)) == (Length(b) > 0))
    || (p == 0xed && Signed(b) > Signed(0x9f))
    || (p == 0xf4 && Signed(b) > Signed(0x8f))
    || (Signed(INITIAL_MINS[p / 16]) > Signed(p) && Signed(SECOND_MINS[p / 16]) > Signed(b))
  }

  /** Predecessor byte `p` explains state `q`. */
  ghost predicate Explains(p: byte, q: State)
    requires q.Expect?
  {
    if p >= 0xc0 then q == Lead(p) else q.due == 0 || (q.lo == 0x80 && q.hi == 0xbf)
  }

  /** A lane that knows its predecessor and whether continuation bytes are due agrees with the automaton. */
  lemma LaneAgrees(q: State, p: byte, b: byte, c: byte)
    requires q.Expect? && Explains(p, q) && c < 128
    requires c > Length(b) <==> q.due > 0
    ensures LaneBad(p, b, c) <==> Next(q, b).Bad?
    ensures Next(q, b).Expect? ==> Explains(b, Next(q, b))
    ensures Next(q, b).Expect? ==>
              Next(q, b).due == if Length(b) > 0 then Length(b) - 1 else q.due - 1
  {}

  // ----- one register

  /** What the register before position `idx` must have left behind. */
  ghost predicate Linked(s: seq<byte>, idx: nat, prev: Processed)
    requires idx <= |s|
  {
    var q := StateAfter(s, idx);
    && prev.highNibbles[31] == prev.rawbytes[31] / 16
    && (q.Expect? ==>
      && Explains(prev.rawbytes[31], q)
      && q.due == Less(prev.carried[31], 1) <= 3
      && prev.carried[30] <= 4
      && (prev.carried[30] <= 1 || prev.carried[31] == prev.carried[30] - 1)
      && forall k :: 0 <= k < 31 ==> prev.carried[k] <= 9)
  }

  function ContinuationLengths(highNibbles: Register): Register {
    ShuffleEpi8(Both(LENGTHS), highNibbles)
  }

  function CarryContinuations(initialLengths: Register, previousCarries: Register): Register {
    var right1 := SubsEpu8(PushLast(previousCarries, initialLengths, 1), Set1(1));
    var sum := AddEpi8(initialLengths, right1);
    var right2 := SubsEpu8(PushLast(previousCarries, sum, 2), Set1(2));
    AddEpi8(sum, right2)
  }

  /** The carried count in lane `i`, from the lengths of the bytes up to it and the two last counts before. */
  function CarryAt(len: seq<nat>, c30: nat, c31: nat, i: nat): nat
    requires i < |len|
  {
    SumAt(len, c31, i) + Less(if i >= 2 then SumAt(len, c31, i - 2) else if i == 1 then c31 else c30, 2)
  }

  function SumAt(len: seq<nat>, c31: nat, i: nat): nat
    requires i < |len|
  {
    len[i] + Less(if i == 0 then c31 else len[i - 1], 1)
  }

  /** The bytes of `s` in the register at `idx`, and the lengths they announce. */
  function LengthsOf(cur: Register): (len: seq<nat>)
    ensures |len| == LANES && forall i :: 0 <= i < LANES ==> len[i] == Length(cur[i])
  {
    seq(LANES, i requires 0 <= i < LANES => Length(cur[i]))
  }

  /** The carried count exceeds the announced length exactly where the automaton expects a continuation. */
  lemma CarryMatches(s: seq<byte>, idx: nat, cur: Register, prev: Processed, i: nat)
    requires idx + LANES <= |s| && cur == s[idx..idx + LANES] && Linked(s, idx, prev)
    requires i < LANES && StateAfter(s, idx + i).Expect?
    ensures StateAfter(s, idx).Expect?
    ensures CarryAt(LengthsOf(cur), prev.carried[30], prev.carried[31], i) <= 9
    ensures (CarryAt(LengthsOf(cur), prev.carried[30], prev.carried[31], i) > Length(cur[i]))
            == (StateAfter(s, idx + i).due > 0)
    ensures i > 0 ==> CarryAt(LengthsOf(cur), prev.carried[30], prev.carried[31], i)
                      == Length(cur[i]) + StateAfter(s, idx + i).due
  {
    BadStays(s, idx, idx + i);
    DueStep(s, idx, i);
  }

  /** How the number of due continuation bytes evolves over the last three bytes. */
  lemma DueStep(s: seq<byte>, idx: nat, i: nat)
    requires idx + i <= |s| && StateAfter(s, idx + i).Expect?
    ensures i >= 1 ==> DueAfter(s, idx + i - 1)
    ensures i >= 2 ==> DueAfter(s, idx + i - 2)
    ensures i >= 3 ==> DueAfter(s, idx + i - 3)
  {
    if i >= 1 { BadStays(s, idx + i - 1, idx + i); }
    if i >= 2 { BadStays(s, idx + i - 2, idx + i); }
    if i >= 3 { BadStays(s, idx + i - 3, idx + i); }
    DueBound(s, idx + i);
    if i >= 1 { DueBound(s, idx + i - 1); }
    if i >= 2 { DueBound(s, idx + i - 2); }
    if i >= 3 { DueBound(s, idx + i - 3); }
  }

  ghost predicate DueAfter(s: seq<byte>, j: nat)
    requires j < |s|
  {
    var q, r := StateAfter(s, j), StateAfter(s, j + 1);
    q.Expect? && r.Expect? && q.due <= 3 && r.due <= 3
    && (if Length(s[j]) > 0 then q.due == 0 && r.due == Length(s[j]) - 1 else q.due > 0 && r.due == q.due - 1)
  }

  lemma DueBound(s: seq<byte>, j: nat)
    requires j <= |s|
    ensures StateAfter(s, j).Expect? ==> StateAfter(s, j).due <= 3
  {}

  // every check ORs its findings into the error register

  method CheckSmallerThan0xF4(current: Register, hasError: Register) returns (error: Register)
    ensures forall i :: 0 <= i < LANES ==> (error[i] == 0 <==> hasError[i] == 0 && current[i] <= 0xf4)
  {
    error := OrEpi8(hasError, SubsEpu8(current, Set1(0xf4)));
  }

  method CheckContinuations(initialLengths: Register, carries: Register, hasError: Register) returns (error: Register)
    ensures forall i :: 0 <= i < LANES ==>
      (error[i] == 0) == (hasError[i] == 0
        && (Signed(carries[i]) > Signed(initialLengths[i])) != (Signed(initialLengths[i]) > 0))
  {
    var overunder := CmpEq(CmpGt(carries, initialLengths), CmpGt(initialLengths, ZERO_REGISTER));
    error := OrEpi8(hasError, overunder);
  }

  method CheckFirstContinuationMax(current: Register, off1: Register, hasError: Register) returns (error: Register)
    ensures forall i :: 0 <= i < LANES ==>
      (error[i] == 0) == (hasError[i] == 0
        && !(off1[i] == 0xed && Signed(current[i]) > Signed(0x9f))
        && !(off1[i] == 0xf4 && Signed(current[i]) > Signed(0x8f)))
  {
    var maskEd := CmpEq(off1, Set1(0xed));
    var maskF4 := CmpEq(off1, Set1(0xf4));
    var badfollowEd := AndEpi8(CmpGt(current, Set1(0x9f)), maskEd);
    var badfollowF4 := AndEpi8(CmpGt(current, Set1(0x8f)), maskF4);
    error := OrEpi8(hasError, OrEpi8(badfollowEd, badfollowF4));
    BitAndSelf(0xff);
  }

  method CheckOverlong(current: Register, off1: Register, hibits: Register, previousHibits: Register, hasError: Register)
    returns (error: Register)
    requires forall i :: 0 <= i < LANES ==> PushLast(previousHibits, hibits, 1)[i] == off1[i] / 16
    ensures forall i :: 0 <= i < LANES ==>
      (error[i] == 0) == (hasError[i] == 0
        && !(Signed(INITIAL_MINS[off1[i] / 16]) > Signed(off1[i])
             && Signed(SECOND_MINS[off1[i] / 16]) > Signed(current[i])))
  {
    var off1Hibits := PushLast(previousHibits, hibits, 1);
    var initialMins := ShuffleEpi8(Both(INITIAL_MINS), off1Hibits);
    var secondMins := ShuffleEpi8(Both(SECOND_MINS), off1Hibits);
    forall i | 0 <= i < LANES
      ensures initialMins[i] == INITIAL_MINS[off1[i] / 16] && secondMins[i] == SECOND_MINS[off1[i] / 16]
    {
      ShuffleBoth(INITIAL_MINS, off1Hibits, i);
      ShuffleBoth(SECOND_MINS, off1Hibits, i);
    }
    var initialUnder := CmpGt(initialMins, off1);
    var secondUnder := CmpGt(secondMins, current);
    error := OrEpi8(hasError, AndEpi8(initialUnder, secondUnder));
    BitAndSelf(0xff);
  }

  /** The four checks of one register, each adding to the error register. */
  method RunChecks(current: Register, previous: Processed, highNibbles: Register, initialLengths: Register,
                   carried: Register, hasError: Register)
    returns (error: Register)
    requires forall i :: 0 <= i < LANES ==> highNibbles[i] == current[i] / 16
    requires forall i :: 0 <= i < LANES ==> initialLengths[i] == Length(current[i])
    requires previous.highNibbles[31] == previous.rawbytes[31] / 16
    ensures forall i :: 0 <= i < LANES ==>
      (error[i] == 0) == (hasError[i] == 0 && !BadLane(current, previous, carried, i))
  {
    var error1 := CheckSmallerThan0xF4(current, hasError);
    var error2 := CheckContinuations(initialLengths, carried, error1);
    var off1 := PushLast(previous.rawbytes, current, 1);
    var error3 := CheckFirstContinuationMax(current, off1, error2);
    error := CheckOverlong(current, off1, highNibbles, previous.highNibbles, error3);
    forall i | 0 <= i < LANES
      ensures (error[i] == 0) == (hasError[i] == 0 && !BadLane(current, previous, carried, i))
    {
      assert error1[i] == 0 <==> hasError[i] == 0 && current[i] <= 0xf4;
      assert Signed(initialLengths[i]) == Length(current[i]);
    }
  }

  /** Checks the 32 bytes at `idx`: no error is recorded exactly while the automaton has not failed. */
  method AvxCheckUtf8Bytes(ghost s: seq<byte>, ghost idx: nat, current: Register, previous: Processed, hasError: Register)
    returns (pb: Processed, error: Register)
    requires idx + LANES <= |s| && current == s[idx..idx + LANES]
    requires Linked(s, idx, previous)
    requires Clean(hasError) <==> StateAfter(s, idx).Expect?
    ensures Linked(s, idx + LANES, pb)
    ensures Clean(error) <==> StateAfter(s, idx + LANES).Expect?
  {
    var highNibbles := HighNibbles(current);
    HighNibblesLanes(current);
    var initialLengths := ContinuationLengths(highNibbles);
    var carried := CarryContinuations(initialLengths, previous.carried);
    pb := Processed(current, highNibbles, carried);
    LookedUpLengths(current, highNibbles);
    error := RunChecks(current, previous, highNibbles, initialLengths, carried, hasError);
    RegisterAgrees(s, idx, current, previous, carried, initialLengths);
  }

  lemma LengthOfNibble(b: byte)
    ensures LENGTHS[b / 16] == Length(b)
  {}

  lemma LookedUpLengths(cur: Register, highNibbles: Register)
    requires forall i :: 0 <= i < LANES ==> highNibbles[i] == cur[i] / 16
    ensures forall i :: 0 <= i < LANES ==> ContinuationLengths(highNibbles)[i] == Length(cur[i])
  {
    forall i | 0 <= i < LANES ensures ContinuationLengths(highNibbles)[i] == Length(cur[i]) {
      ShuffleBoth(LENGTHS, highNibbles, i);
      LengthOfNibble(cur[i]);
    }
  }

  /** What lane `i` reports. */
  predicate BadLane(cur: Register, prev: Processed, carried: Register, i: nat)
    requires i < LANES
  {
    LaneBad(PushLast(prev.rawbytes, cur, 1)[i], cur[i], carried[i])
  }

  lemma RegisterAgrees(s: seq<byte>, idx: nat, cur: Register, prev: Processed, carried: Register, len: Register)
    requires idx + LANES <= |s| && cur == s[idx..idx + LANES] && Linked(s, idx, prev)
    requires forall i :: 0 <= i < LANES ==> len[i] == Length(cur[i])
    requires carried == CarryContinuations(len, prev.carried)
    ensures StateAfter(s, idx + LANES).Expect? <==>
            StateAfter(s, idx).Expect? && forall i :: 0 <= i < LANES ==> !BadLane(cur, prev, carried, i)
    ensures Linked(s, idx + LANES, Processed(cur, HighNibbles(cur), carried))
  {
    HighNibbleLane(cur, 31);
    BadStays(s, idx, idx + LANES);
    if StateAfter(s, idx).Expect? {
      forall i | 0 <= i < LANES ensures CountsLane(cur, prev, carried, i) {
        CarriesAreCounts(len, cur, prev.carried, i);
      }
      LanesAgree(s, idx, cur, prev, carried, LANES);
      if StateAfter(s, idx + LANES).Expect? { StaysLinked(s, idx, cur, prev, carried); }
    }
  }

  ghost predicate CountsLane(cur: Register, prev: Processed, carried: Register, i: nat)
    requires i < LANES
  {
    carried[i] == CarryAt(LengthsOf(cur), prev.carried[30], prev.carried[31], i)
  }

  /** The two saturating additions compute `CarryAt`. */
  lemma CarriesAreCounts(len: Register, cur: Register, prev: Register, i: nat)
    requires i < LANES && prev[30] <= 4 && prev[31] <= 4
    requires forall j :: 0 <= j < LANES ==> len[j] == Length(cur[j])
    ensures CarryContinuations(len, prev)[i] == CarryAt(LengthsOf(cur), prev[30], prev[31], i)
  {
    SumsAreCounts(len, cur, prev, i);
    if i >= 2 { SumsAreCounts(len, cur, prev, i - 2); }
    var sum := AddEpi8(len, SubsEpu8(PushLast(prev, len, 1), Set1(1)));
    assert PushLast(prev, sum, 2)[i] == if i < 2 then prev[30 + i] else sum[i - 2];
  }

  lemma SumsAreCounts(len: Register, cur: Register, prev: Register, j: nat)
    requires j < LANES && prev[31] <= 4
    requires forall j :: 0 <= j < LANES ==> len[j] == Length(cur[j])
    ensures AddEpi8(len, SubsEpu8(PushLast(prev, len, 1), Set1(1)))[j] == SumAt(LengthsOf(cur), prev[31], j)
    ensures SumAt(LengthsOf(cur), prev[31], j) <= 7
  {
    assert PushLast(prev, len, 1)[j] == if j == 0 then prev[31] else len[j - 1];
  }

  lemma LaneStep(s: seq<byte>, idx: nat, cur: Register, prev: Processed, carried: Register, i: nat)
    requires idx + LANES <= |s| && cur == s[idx..idx + LANES] && Linked(s, idx, prev)
    requires i < LANES && StateAfter(s, idx + i).Expect? && CountsLane(cur, prev, carried, i)
    requires i > 0 ==> Explains(cur[i - 1], StateAfter(s, idx + i))
    ensures BadLane(cur, prev, carried, i) <==> StateAfter(s, idx + i + 1).Bad?
    ensures StateAfter(s, idx + i + 1).Expect? ==> Explains(cur[i], StateAfter(s, idx + i + 1))
  {
    CarryMatches(s, idx, cur, prev, i);
    var p := PushLast(prev.rawbytes, cur, 1)[i];
    assert p == if i == 0 then prev.rawbytes[31] else cur[i - 1];
    LaneAgrees(StateAfter(s, idx + i), p, cur[i], carried[i]);
  }

  /** One lane more. */
  lemma NextLane(s: seq<byte>, idx: nat, cur: Register, prev: Processed, carried: Register, n: nat)
    requires idx + LANES <= |s| && cur == s[idx..idx + LANES] && Linked(s, idx, prev) && n < LANES
    requires StateAfter(s, idx).Expect? && (n > 0 && StateAfter(s, idx + n).Expect? ==> Explains(cur[n - 1], StateAfter(s, idx + n)))
    requires forall i :: 0 <= i < LANES ==> CountsLane(cur, prev, carried, i)
    ensures StateAfter(s, idx + n + 1).Expect? <==> StateAfter(s, idx + n).Expect? && !BadLane(cur, prev, carried, n)
    ensures StateAfter(s, idx + n + 1).Expect? ==> Explains(cur[n], StateAfter(s, idx + n + 1))
  {
    BadStays(s, idx + n, idx + n + 1);
    if StateAfter(s, idx + n).Expect? { LaneStep(s, idx, cur, prev, carried, n); }
  }

  /** No lane below `n` reports an error exactly when the automaton survives the first `n` bytes. */
  lemma {:induction false} LanesAgree(s: seq<byte>, idx: nat, cur: Register, prev: Processed, carried: Register, n: nat)
    requires idx + LANES <= |s| && cur == s[idx..idx + LANES] && Linked(s, idx, prev) && n <= LANES
    requires StateAfter(s, idx).Expect?
    requires forall i :: 0 <= i < LANES ==> CountsLane(cur, prev, carried, i)
    ensures StateAfter(s, idx + n).Expect? <==> forall i :: 0 <= i < n ==> !BadLane(cur, prev, carried, i)
    ensures n > 0 && StateAfter(s, idx + n).Expect? ==> Explains(cur[n - 1], StateAfter(s, idx + n))
  {
    if n > 0 {
      LanesAgree(s, idx, cur, prev, carried, n - 1);
      NextLane(s, idx, cur, prev, carried, n - 1);
    }
  }

  lemma StaysLinked(s: seq<byte>, idx: nat, cur: Register, prev: Processed, carried: Register)
    requires idx + LANES <= |s| && cur == s[idx..idx + LANES] && Linked(s, idx, prev)
    requires StateAfter(s, idx + LANES).Expect?
    requires Explains(cur[31], StateAfter(s, idx + LANES))
    requires forall i :: 0 <= i < LANES ==> CountsLane(cur, prev, carried, i)
    ensures Linked(s, idx + LANES, Processed(cur, HighNibbles(cur), carried))
  {
    HighNibbleLane(cur, 31);
    forall i | 0 <= i < LANES ensures carried[i] <= 9 {
      assert CountsLane(cur, prev, carried, i);
      BadStays(s, idx + i, idx + LANES);
      CarryMatches(s, idx, cur, prev, i);
    }
    LastCounts(s, idx, cur, prev, carried);
  }

  lemma LastCounts(s: seq<byte>, idx: nat, cur: Register, prev: Processed, carried: Register)
    requires idx + LANES <= |s| && cur == s[idx..idx + LANES] && Linked(s, idx, prev)
    requires StateAfter(s, idx + LANES).Expect?
    requires CountsLane(cur, prev, carried, 30) && CountsLane(cur, prev, carried, 31)
    ensures StateAfter(s, idx + LANES).due == Less(carried[31], 1) <= 3
    ensures carried[30] <= 4 && (carried[30] <= 1 || carried[31] == carried[30] - 1)
  {
    BadStays(s, idx + 30, idx + 32);
    BadStays(s, idx + 31, idx + 32);
    CountThen(s, idx, cur, prev, carried, 30);
    CountThen(s, idx, cur, prev, carried, 31);
    DueBound(s, idx + 31);
    DueBound(s, idx + 32);
  }

  /** The carried count of a lane is one more than what is due behind it, or no more than one. */
  lemma CountThen(s: seq<byte>, idx: nat, cur: Register, prev: Processed, carried: Register, i: nat)
    requires idx + LANES <= |s| && cur == s[idx..idx + LANES] && Linked(s, idx, prev) && 0 < i < LANES
    requires StateAfter(s, idx + i).Expect? && StateAfter(s, idx + i + 1).Expect? && CountsLane(cur, prev, carried, i)
    ensures carried[i] == Length(cur[i]) + StateAfter(s, idx + i).due
    ensures StateAfter(s, idx + i + 1).due == Less(carried[i], 1)
  {
    CarryMatches(s, idx, cur, prev, i);
    DueStep(s, idx, i + 1);
    assert DueAfter(s, idx + i) && cur[i] == s[idx + i];
  }

  function HighNibbles(bytes: Register): Register {
    AndEpi8(SrliEpi16By4(bytes), Set1(0x0f))
  }

  lemma HighNibbleLane(bytes: Register, i: nat)
    requires i < LANES
    ensures HighNibbles(bytes)[i] == bytes[i] / 16
  {
    var x := SrliEpi16By4(bytes)[i];
    assert HighNibbles(bytes)[i] == BitAnd(x, 0x0f);
    BitAnd0f(x);
    NibbleSurvives(bytes[i], if i % 2 == 1 then 0 else bytes[i + 1]);
  }

  lemma HighNibblesLanes(bytes: Register)
    ensures forall i :: 0 <= i < LANES ==> HighNibbles(bytes)[i] == bytes[i] / 16
  {
    forall i | 0 <= i < LANES ensures HighNibbles(bytes)[i] == bytes[i] / 16 {
      HighNibbleLane(bytes, i);
    }
  }

  // ----- one block

  lemma HighBit(x: nat, n: nat)
    requires x < Pow2(n + 1)
    ensures BitAnd(x, Pow2(n)) == 0 <==> x < Pow2(n)
  {
    if n > 0 {
      HighBit(x / 2, n - 1);
    } else {
      assert BitAnd(1, 1) == 1;
    }
  }

  /** Whether both halves of the block are ASCII. */
  predicate IsAsciiBlock(input: SimdInput) {
    TestZ(OrEpi8(input.lo, input.hi), Set1(0x80))
  }

  lemma AsciiLane(a: byte, b: byte)
    ensures BitAnd(BitOr8(a, b), 0x80) == 0 <==> a < 0x80 && b < 0x80
  {
    assert Pow2(7) == 128 && Pow2(8) == 256;
    HighBit(BitOr8(a, b), 7);
    BitOrBound(a, b);
    if a < 128 && b < 128 { BitOrBelow(a, b, 7); }
  }

  lemma AsciiBlock(input: SimdInput)
    ensures IsAsciiBlock(input) <==> forall i :: 0 <= i < 64 ==> input.Bytes()[i] < 0x80
  {
    forall i | 0 <= i < LANES
      ensures BitAnd(OrEpi8(input.lo, input.hi)[i], 0x80) == 0 <==> input.lo[i] < 0x80 && input.hi[i] < 0x80
    {
      AsciiLane(input.lo[i], input.hi[i]);
    }
    if forall i :: 0 <= i < 64 ==> input.Bytes()[i] < 0x80 {
      forall i | 0 <= i < LANES ensures input.lo[i] < 0x80 && input.hi[i] < 0x80 {
        assert input.Bytes()[i] == input.lo[i] && input.Bytes()[i + 32] == input.hi[i];
      }
    }
  }

  const CARRY_LIMITS: Register := seq(LANES, i => if i == 31 then 1 else 9)

  /** Checks the 64 bytes at `idx`. An ASCII block only needs that nothing is due, and leaves `previous` as it is. */
  method CheckUtf8(ghost s: seq<byte>, ghost idx: nat, input: SimdInput, hasError: Register, previous: Processed)
    returns (error: Register, next: Processed)
    requires idx + 64 <= |s| && input.Bytes() == s[idx..idx + 64]
    requires Linked(s, idx, previous)
    requires Clean(hasError) <==> StateAfter(s, idx).Expect?
    ensures Linked(s, idx + 64, next)
    ensures Clean(error) <==> StateAfter(s, idx + 64).Expect?
  {
    AsciiBlock(input);
    if IsAsciiBlock(input) {
      error := OrEpi8(CmpGt(previous.carried, CARRY_LIMITS), hasError);
      next := previous;
      BadStays(s, idx, idx + 64);
      if StateAfter(s, idx).Expect? {
        AsciiStep(s, idx, input, previous);
        assert forall i :: 0 <= i < 31 ==> error[i] == 0;
        assert error[31] == 0 <==> previous.carried[31] <= 1;
      } else {
        var i :| 0 <= i < LANES && hasError[i] != 0;
        assert error[i] != 0;
      }
    } else {
      assert input.lo == input.Bytes()[..32] && input.hi == input.Bytes()[32..];
      assert input.lo == s[idx..idx + 32] && input.hi == s[idx + 32..idx + 64];
      next, error := AvxCheckUtf8Bytes(s, idx, input.lo, previous, hasError);
      next, error := AvxCheckUtf8Bytes(s, idx + 32, input.hi, next, error);
    }
  }

  lemma AsciiStep(s: seq<byte>, idx: nat, input: SimdInput, prev: Processed)
    requires idx + 64 <= |s| && input.Bytes() == s[idx..idx + 64]
    requires forall i :: 0 <= i < 64 ==> input.Bytes()[i] < 0x80
    requires Linked(s, idx, prev) && StateAfter(s, idx).Expect?
    ensures StateAfter(s, idx + 64).Expect? <==> StateAfter(s, idx).due == 0
    ensures Linked(s, idx + 64, prev)
  {
    forall k | idx <= k < idx + 64 ensures s[k] < 0x80 {
      assert s[k] == input.Bytes()[k - idx];
    }
    var q := StateAfter(s, idx);
    if q.due == 0 {
      assert StateAfter(s, idx + 1) == START;
      AsciiKeepsStart(s, idx + 1, idx + 64);
    } else {
      assert Next(q, s[idx]).Bad?;
      BadStays(s, idx + 1, idx + 64);
    }
  }
}
