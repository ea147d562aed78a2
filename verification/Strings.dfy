/** String literals: the reading of their escapes one after the other, its agreement with stage 1 and with RFC 8259. */
module Strings {
  import opened Bytes
  import opened Escapes
  import opened Scanner
  import opened Utf8

  /** The bytes a string stands for and the position of the quote that ends it. */
  datatype Unescaped = Unescaped(bytes: seq<byte>, end: nat)

  function Prepend(b: seq<byte>, r: Option<Unescaped>): Option<Unescaped> {
    match r
    case None => None
    case Some(u) => Some(Unescaped(b + u.bytes, u.end))
  }

  /** Reads a string from position `i` on: none when an escape is illegal or no quote ends it. */
  function Unescape(s: seq<byte>, i: nat): (r: Option<Unescaped>)
    ensures r.Some? ==> i <= r.value.end < |s| && |r.value.bytes| <= r.value.end - i && s[r.value.end] == QUOTE
    decreases if i <= |s| then |s| - i else 0, 1
  {
    if i >= |s| then None
    else if s[i] == QUOTE then Some(Unescaped([], i))
    else if s[i] == BACKSLASH then UnescapeEscape(s, i)
    else Prepend([s[i]], Unescape(s, i + 1))
  }

  /** Reads on from the escape at position `i`. */
  function UnescapeEscape(s: seq<byte>, i: nat): (r: Option<Unescaped>)
    requires i < |s|
    ensures r.Some? ==> i <= r.value.end < |s| && |r.value.bytes| <= r.value.end - i && s[r.value.end] == QUOTE
    decreases |s| - i, 0
  {
    match EscapeAt(s, i)
    case None => None
    case Some(e) =>
      EscapeBounds(s, i);
      Prepend(e.bytes, Unescape(s, i + e.len))
  }

  lemma PrependTwice(a: seq<byte>, b: seq<byte>, r: Option<Unescaped>)
    ensures Prepend(a, Prepend(b, r)) == Prepend(a + b, r)
  {
    if r.Some? { assert a + (b + r.value.bytes) == a + b + r.value.bytes; }
  }

  predicate IsPlain(b: byte) {
    b != QUOTE && b != BACKSLASH
  }

  /** Bytes that are neither quotes nor backslashes stand for themselves. */
  lemma {:induction false} UnescapePlain(s: seq<byte>, i: nat, j: nat)
    requires i <= j <= |s|
    requires forall k :: i <= k < j ==> IsPlain(s[k])
    ensures Unescape(s, i) == Prepend(s[i..j], Unescape(s, j))
    decreases j - i
  {
    if i == j {
      PrependNothing(Unescape(s, j));
    } else {
      UnescapePlain(s, i + 1, j);
      PrependTwice([s[i]], s[i + 1..j], Unescape(s, j));
      assert s[i..j] == [s[i]] + s[i + 1..j];
    }
  }

  lemma PrependNothing(r: Option<Unescaped>)
    ensures Prepend([], r) == r
  {
    if r.Some? { assert [] + r.value.bytes == r.value.bytes; }
  }

  /** `s` and `t` agree from position `i` on. */
  predicate SameFrom(s: seq<byte>, t: seq<byte>, i: nat) {
    |s| == |t| && forall k :: i <= k < |s| ==> s[k] == t[k]
  }

  /** Only the bytes from `i` on matter. */
  lemma {:induction false} UnescapeOfSuffix(s: seq<byte>, t: seq<byte>, i: nat)
    requires SameFrom(s, t, i)
    ensures Unescape(s, i) == Unescape(t, i)
    decreases if i <= |s| then |s| - i else 0
  {
    if i < |s| && s[i] != QUOTE {
      if s[i] != BACKSLASH {
        UnescapeOfSuffix(s, t, i + 1);
      } else {
        EscapeOfSuffix(s, t, i);
        if EscapeAt(s, i).Some? {
          EscapeBounds(s, i);
          UnescapeOfSuffix(s, t, i + EscapeAt(s, i).value.len);
        }
      }
    }
  }

  lemma EscapeOfSuffix(s: seq<byte>, t: seq<byte>, i: nat)
    requires SameFrom(s, t, i)
    ensures EscapeAt(s, i) == EscapeAt(t, i)
  {
    assert forall k {:trigger At(s, k)} :: k >= i ==> At(s, k) == At(t, k);
  }

  // ----- the two notions of escaping

  /** The string opened at `open` is closed at `c`, by the parity of backslash runs. */
  ghost predicate Closing(s: seq<byte>, open: nat, c: nat) {
    open < c < |s| && s[open] == QUOTE && IsQuote(s, c) && forall j :: open < j < c ==> !IsQuote(s, j)
  }

  /** Bytes `[i..j)` are an escape that leaves nothing escaped behind it; no closing quote or illegal escape hides in it. */
  ghost predicate Passed(s: seq<byte>, i: nat, j: nat) {
    i < j <= |s| && !Escaped(s, j)
    && (forall k :: i <= k < j ==> IsAscii(s[k]) && !IsQuote(s, k))
    && (forall k :: i < k < j && s[k] == BACKSLASH && !Escaped(s, k) ==> EscapeAt(s, k).Some?)
  }

  lemma EscapeStep(s: seq<byte>, i: nat)
    requires i < |s| && s[i] == BACKSLASH && !Escaped(s, i) && EscapeAt(s, i).Some?
    ensures Passed(s, i, i + EscapeAt(s, i).value.len)
  {
    EscapedStep(s, i);
    assert s[i + 1] == At(s, i + 1);
    EscapedStep(s, i + 1);
    if s[i + 1] == LOWER_U {
      SingleStep(s, i);
      if Joined(s, i) { JoinedStep(s, i); }
    }
  }

  lemma SingleStep(s: seq<byte>, i: nat)
    requires i + 1 < |s| && s[i] == BACKSLASH && s[i + 1] == LOWER_U && !Escaped(s, i) && FourHex(s, i + 2)
    ensures Passed(s, i, i + 6)
  {
    EscapedStep(s, i);
    EscapedStep(s, i + 1);
    HexRun(s, i + 2);
  }

  lemma JoinedStep(s: seq<byte>, i: nat)
    requires Joined(s, i) && Passed(s, i, i + 6)
    ensures Passed(s, i, i + 12)
  {
    assert s[i + 6] == At(s, i + 6) && s[i + 7] == At(s, i + 7);
    SingleStep(s, i + 6);
    SecondLegal(s, i);
  }

  lemma SecondLegal(s: seq<byte>, i: nat)
    requires Joined(s, i)
    ensures EscapeAt(s, i + 6).Some?
  {
  }

  lemma HexRun(s: seq<byte>, i: nat)
    requires FourHex(s, i) && i <= |s| && !Escaped(s, i)
    ensures i + 4 <= |s| && !Escaped(s, i + 4)
    ensures forall j :: i <= j < i + 4 ==> IsAscii(s[j]) && s[j] != QUOTE && s[j] != BACKSLASH && !Escaped(s, j)
  {
    assert s[i] == At(s, i);
    EscapedStep(s, i);
    assert s[i + 1] == At(s, i + 1);
    EscapedStep(s, i + 1);
    assert s[i + 2] == At(s, i + 2);
    EscapedStep(s, i + 2);
    assert s[i + 3] == At(s, i + 3);
    EscapedStep(s, i + 3);
  }

  /** An illegal escape at position `j`. */
  predicate IllegalAt(s: seq<byte>, j: nat)
    requires j < |s|
  {
    s[j] == BACKSLASH && !Escaped(s, j) && EscapeAt(s, j).None?
  }

  /**
   Reading escapes left to right stops at the very quote that run parity identifies, unless an
   escape before that quote is illegal.
   */
  lemma {:induction false} EndIsClosing(s: seq<byte>, i: nat, c: nat)
    requires i <= c < |s| && !Escaped(s, i) && IsQuote(s, c) && forall j :: i <= j < c ==> !IsQuote(s, j)
    ensures Unescape(s, i).Some? ==> Unescape(s, i).value.end == c
    ensures Unescape(s, i).None? <==> exists j :: i <= j < c && IllegalAt(s, j)
    decreases c - i
  {
    if i < c {
      EscapedStep(s, i);
      assert !IsQuote(s, i);
      if s[i] != BACKSLASH {
        EndIsClosing(s, i + 1, c);
      } else if EscapeAt(s, i).Some? {
        EscapeStep(s, i);
        EndIsClosing(s, i + EscapeAt(s, i).value.len, c);
      } else {
        assert IllegalAt(s, i);
      }
    }
  }

  lemma AfterQuote(s: seq<byte>, open: nat)
    requires open < |s| && s[open] == QUOTE
    ensures !Escaped(s, open + 1)
  {}

  /** `Closing` looks at nothing before the opening quote. */
  lemma ClosingOfSuffix(s: seq<byte>, t: seq<byte>, open: nat, c: nat)
    requires SameFrom(s, t, open) && Closing(s, open, c)
    ensures Closing(t, open, c)
  {
    forall j | open < j < |s| ensures IsQuote(s, j) == IsQuote(t, j) {
      RunOfSuffix(s, t, open, j);
    }
  }

  lemma {:induction false} RunOfSuffix(s: seq<byte>, t: seq<byte>, open: nat, j: nat)
    requires SameFrom(s, t, open) && open < j <= |s| && s[open] == QUOTE
    ensures Run(s, j) == Run(t, j)
  {
    if j > open + 1 { RunOfSuffix(s, t, open, j - 1); }
  }

  // ----- section 7 of RFC 8259

  function RfcLetter(b: byte): Option<byte> {
    if b == QUOTE || b == BACKSLASH || b == SLASH then Some(b)
    else if b == LOWER_B then Some(0x08)
    else if b == LOWER_F then Some(0x0c)
    else if b == LOWER_N then Some(0x0a)
    else if b == LOWER_R then Some(0x0d)
    else if b == LOWER_T then Some(0x09)
    else None
  }

  /** An escape as RFC 8259 has it: surrogates come in pairs, high before low. */
  function RfcEscape(s: seq<byte>, i: nat): Option<Escape> {
    if At(s, i + 1) != LOWER_U then
      match RfcLetter(At(s, i + 1))
      case None => None
      case Some(b) => Some(Escape([b], 2))
    else if !FourHex(s, i + 2) then None
    else
      var high := HexValue(s, i + 2);
      if !IsSurrogate(high) then Some(Escape(Encode(high), 6))
      else if high < 0xdc00 && At(s, i + 6) == BACKSLASH && At(s, i + 7) == LOWER_U && FourHex(s, i + 8)
              && 0xdc00 <= HexValue(s, i + 8) < 0xe000 then
        Some(Escape(Encode(0x1_0000 + 0x400 * (high - 0xd800) + (HexValue(s, i + 8) - 0xdc00)), 12))
      else None
  }

  /** A string as RFC 8259 has it: no control characters, every escape legal. */
  function RfcString(s: seq<byte>, i: nat): Option<Unescaped>
    decreases if i <= |s| then |s| - i else 0
  {
    if i >= |s| || s[i] < 0x20 then None
    else if s[i] == QUOTE then Some(Unescaped([], i))
    else if s[i] == BACKSLASH then
      match RfcEscape(s, i)
      case None => None
      case Some(e) => Prepend(e.bytes, RfcString(s, i + e.len))
    else Prepend([s[i]], RfcString(s, i + 1))
  }

  /** Neither a low surrogate on its own nor a high one joined to an escape above the surrogates. */
  predicate PairedAt(s: seq<byte>, i: nat) {
    At(s, i + 1) == LOWER_U && FourHex(s, i + 2) ==>
      !(0xdc00 <= HexValue(s, i + 2) < 0xe000) && (Joined(s, i) ==> HexValue(s, i + 8) < 0xe000)
  }

  /** From `i` to the end of the string: no control bytes, and surrogates only in pairs. */
  predicate Regular(s: seq<byte>, i: nat)
    decreases if i <= |s| then |s| - i else 0
  {
    if i >= |s| then true
    else if s[i] < 0x20 then false
    else if s[i] == QUOTE then true
    else if s[i] != BACKSLASH then Regular(s, i + 1)
    else
      EscapeBounds(s, i);
      PairedAt(s, i) && (EscapeAt(s, i).Some? ==> Regular(s, i + EscapeAt(s, i).value.len))
  }

  /** From `i` to the end of the string surrogates stand only in pairs. */
  predicate SurrogatesPaired(s: seq<byte>, i: nat)
    decreases if i <= |s| then |s| - i else 0
  {
    if i >= |s| || s[i] == QUOTE then true
    else if s[i] != BACKSLASH then SurrogatesPaired(s, i + 1)
    else
      EscapeBounds(s, i);
      PairedAt(s, i) && (EscapeAt(s, i).Some? ==> SurrogatesPaired(s, i + EscapeAt(s, i).value.len))
  }

  /** Without control bytes before the closing quote, pairing is all that is left to ask. */
  lemma {:induction false} RegularIsPaired(s: seq<byte>, i: nat, c: nat)
    requires i <= c < |s| && !Escaped(s, i) && IsQuote(s, c)
    requires forall j :: i <= j < c ==> !IsQuote(s, j) && s[j] >= 0x20
    ensures Regular(s, i) <==> SurrogatesPaired(s, i)
    decreases c - i
  {
    if i < c {
      EscapedStep(s, i);
      assert !IsQuote(s, i);
      if s[i] != BACKSLASH {
        RegularIsPaired(s, i + 1, c);
      } else if EscapeAt(s, i).Some? {
        EscapeStep(s, i);
        RegularIsPaired(s, i + EscapeAt(s, i).value.len, c);
      }
    }
  }

  lemma EscapeIsRfc(s: seq<byte>, i: nat)
    ensures RfcEscape(s, i).Some? <==> EscapeAt(s, i).Some? && PairedAt(s, i)
    ensures RfcEscape(s, i).Some? ==> EscapeAt(s, i) == RfcEscape(s, i)
  {
    if Joined(s, i) {
      var cp, cp2 := HexValue(s, i + 2), HexValue(s, i + 8);
      JoinedBound(cp, cp2);
      assert cp2 < 0xe000 ==> JoinedCode(cp, cp2) == 0x1_0000 + 0x400 * (cp - 0xd800) + (cp2 - 0xdc00);
    }
  }

  /** The reading is the standard's exactly on strings without control bytes or unpaired surrogates. */
  lemma {:induction false} StringIsRfc(s: seq<byte>, i: nat)
    ensures RfcString(s, i).Some? <==> Unescape(s, i).Some? && Regular(s, i)
    ensures RfcString(s, i).Some? ==> Unescape(s, i) == RfcString(s, i)
    decreases if i <= |s| then |s| - i else 0
  {
    if i < |s| && s[i] >= 0x20 && s[i] != QUOTE {
      if s[i] != BACKSLASH {
        StringIsRfc(s, i + 1);
      } else {
        EscapeIsRfc(s, i);
        if EscapeAt(s, i).Some? {
          EscapeBounds(s, i);
          StringIsRfc(s, i + EscapeAt(s, i).value.len);
        }
      }
    }
  }

  /** A low surrogate on its own is read as if it were a character: `\udc00`. */
  lemma LoneSurrogateAccepted()
    ensures var s := [BACKSLASH, LOWER_U, 0x64, 0x63, ZERO, ZERO, QUOTE];
            EscapeAt(s, 0).Some? && RfcEscape(s, 0).None?
  {
    var s: seq<byte> := [BACKSLASH, LOWER_U, 0x64, 0x63, ZERO, ZERO, QUOTE];
    assert DigitToVal(At(s, 2)) == 13 && DigitToVal(At(s, 3)) == 12;
    assert DigitToVal(At(s, 4)) == 0 && DigitToVal(At(s, 5)) == 0;
    LoneLow(s, 0);
  }

  /** A high surrogate is joined to an escape above the surrogates: `\ud800\ue000`. */
  lemma JoinedAboveAccepted()
    ensures var s := [BACKSLASH, LOWER_U, 0x64, 0x38, ZERO, ZERO, BACKSLASH, LOWER_U, 0x65, ZERO, ZERO, ZERO, QUOTE];
            EscapeAt(s, 0) == Some(Escape([0xf0, 0x90, 0x90, 0x80], 12)) && RfcEscape(s, 0).None?
  {
    var s: seq<byte> := [BACKSLASH, LOWER_U, 0x64, 0x38, ZERO, ZERO, BACKSLASH, LOWER_U, 0x65, ZERO, ZERO, ZERO, QUOTE];
    assert DigitToVal(At(s, 2)) == 13 && DigitToVal(At(s, 3)) == 8;
    assert DigitToVal(At(s, 4)) == 0 && DigitToVal(At(s, 5)) == 0;
    assert DigitToVal(At(s, 8)) == 14 && DigitToVal(At(s, 9)) == 0;
    assert DigitToVal(At(s, 10)) == 0 && DigitToVal(At(s, 11)) == 0;
    assert HexValue(s, 2) == 0xd800 && HexValue(s, 8) == 0xe000;
    assert Joined(s, 0);
    JoinedAbove();
    assert Encode(0x1_0400) == [0xf0, 0x90, 0x90, 0x80];
  }

  lemma LoneLow(s: seq<byte>, i: nat)
    requires At(s, i + 1) == LOWER_U && FourHex(s, i + 2) && 0xdc00 <= HexValue(s, i + 2) < 0xe000
    ensures EscapeAt(s, i) == Some(Escape(Encode(HexValue(s, i + 2)), 6)) && RfcEscape(s, i).None?
  {
    var v := HexValue(s, i + 2);
    assert !(0xd800 <= v < 0xdc00) && IsSurrogate(v);
  }

  // ----- the result is UTF-8 again

  /** State of the UTF-8 automaton after reading `b` from state `q`. */
  function RunFrom(q: State, b: seq<byte>): State
    decreases |b|
  {
    if b == [] then q else RunFrom(Next(q, b[0]), b[1..])
  }

  lemma {:induction false} RunFromConcat(q: State, a: seq<byte>, b: seq<byte>)
    ensures RunFrom(q, a + b) == RunFrom(RunFrom(q, a), b)
    decreases |a|
  {
    if a == [] {
      assert a + b == b;
    } else {
      assert (a + b)[1..] == a[1..] + b;
      RunFromConcat(Next(q, a[0]), a[1..], b);
    }
  }

  lemma {:induction false} RunFromStart(b: seq<byte>, n: nat)
    requires n <= |b|
    ensures RunFrom(StateAfter(b, n), b[n..]) == StateAfter(b, |b|)
    decreases |b| - n
  {
    if n < |b| {
      assert b[n..][1..] == b[n + 1..];
      RunFromStart(b, n + 1);
    } else {
      assert b[n..] == [];
    }
  }

  lemma OneSequenceReturns(r: seq<byte>)
    requires r != [] && SequenceAt(r, 0) == |r|
    ensures RunFrom(START, r) == START
  {
    SequenceReturns(r, 0);
    RunFromStart(r, 0);
    assert r[0..] == r;
  }

  /** A code unit DC00 to DFFF that no high surrogate precedes. */
  predicate LoneLowAt(s: seq<byte>, i: nat) {
    At(s, i + 1) == LOWER_U && FourHex(s, i + 2) && 0xdc00 <= HexValue(s, i + 2) < 0xe000
  }

  /** From `i` to the end of the string no low surrogate stands alone. */
  predicate NoLoneLow(s: seq<byte>, i: nat)
    decreases if i <= |s| then |s| - i else 0
  {
    if i >= |s| || s[i] == QUOTE then true
    else if s[i] != BACKSLASH then NoLoneLow(s, i + 1)
    else
      EscapeBounds(s, i);
      !LoneLowAt(s, i) && (EscapeAt(s, i).Some? ==> NoLoneLow(s, i + EscapeAt(s, i).value.len))
  }

  lemma {:induction false} BadRuns(b: seq<byte>)
    ensures RunFrom(Bad, b) == Bad
    decreases |b|
  {
    if b != [] { BadRuns(b[1..]); }
  }

  /** What an escape stands for is one well-formed sequence, or, for a lone low surrogate, spoils the text. */
  lemma EscapeRunsTo(s: seq<byte>, i: nat)
    requires EscapeAt(s, i).Some?
    ensures RunFrom(START, EscapeAt(s, i).value.bytes) == if LoneLowAt(s, i) then Bad else START
  {
    EscapeBounds(s, i);
    var r := EscapeAt(s, i).value.bytes;
    if LoneLowAt(s, i) {
      SurrogateSpoils(HexValue(s, i + 2));
    } else {
      if At(s, i + 1) != LOWER_U {
        assert SequenceAt(r, 0) == 1;
      } else if Joined(s, i) {
        JoinedBound(HexValue(s, i + 2), HexValue(s, i + 8));
        EncodeExact(JoinedCode(HexValue(s, i + 2), HexValue(s, i + 8)));
      } else {
        EncodeExact(HexValue(s, i + 2));
      }
      OneSequenceReturns(r);
    }
  }

  lemma SurrogateSpoils(cp: nat)
    requires IsSurrogate(cp)
    ensures RunFrom(START, Encode(cp)) == Bad
  {
    var r := Encode(cp);
    assert r[0] == 0xed && r[1] >= 0xa0;
    assert r[1..][0] == r[1];
    BadRuns(r[1..][1..]);
  }

  /** No byte of the input spoils it as UTF-8; at its end a sequence may be unfinished. */
  predicate Unspoiled(s: seq<byte>) {
    StateAfter(s, |s|).Expect?
  }

  /** In such an input no sequence is unfinished at an ASCII byte. */
  lemma AsciiAtStart(s: seq<byte>, i: nat)
    requires i < |s| && IsAscii(s[i]) && Unspoiled(s)
    ensures StateAfter(s, i) == START
  {
    BadStays(s, i + 1, |s|);
    DueZeroIsStart(s, i);
  }

  lemma {:induction false} UnescapeRuns(s: seq<byte>, i: nat)
    requires Unspoiled(s) && i <= |s| && !Escaped(s, i) && Unescape(s, i).Some?
    ensures RunFrom(StateAfter(s, i), Unescape(s, i).value.bytes) == START <==> NoLoneLow(s, i)
    decreases |s| - i
  {
    if s[i] == QUOTE {
      AsciiAtStart(s, i);
    } else if s[i] == BACKSLASH {
      var e := EscapeAt(s, i).value;
      EscapeStep(s, i);
      AsciiAtStart(s, i);
      AsciiKeepsStart(s, i, i + e.len);
      EscapeRunsTo(s, i);
      UnescapeRuns(s, i + e.len);
      var rest := Unescape(s, i + e.len).value.bytes;
      RunFromConcat(START, e.bytes, rest);
      BadRuns(rest);
    } else {
      EscapedStep(s, i);
      UnescapeRuns(s, i + 1);
      var rest := Unescape(s, i + 1).value.bytes;
      assert ([s[i]] + rest)[1..] == rest;
    }
  }

  /**
   What a string stands for is well-formed UTF-8, as its use as a `str` demands, exactly when no low
   surrogate stands alone in it.
   */
  lemma UnescapedWellFormed(s: seq<byte>, i: nat)
    requires Unspoiled(s) && 0 < i <= |s| && s[i - 1] == QUOTE && Unescape(s, i).Some?
    ensures WellFormed(Unescape(s, i).value.bytes) <==> NoLoneLow(s, i)
  {
    AsciiAtStart(s, i - 1);
    assert StateAfter(s, i) == START;
    AfterQuote(s, i - 1);
    UnescapeRuns(s, i);
    var b := Unescape(s, i).value.bytes;
    RunFromStart(b, 0);
    assert b[0..] == b;
    AutomatonRecognises(b, 0);
  }

  /** `"\u00E9"` is read as the character E9. */
  lemma UpperHexRead()
    ensures var s := [QUOTE, BACKSLASH, LOWER_U, ZERO, ZERO, UPPER_E, NINE, QUOTE];
            Unescape(s, 1) == Some(Unescaped([0xc3, 0xa9], 7)) && RfcString(s, 1) == Unescape(s, 1)
  {
    var s: seq<byte> := [QUOTE, BACKSLASH, LOWER_U, ZERO, ZERO, UPPER_E, NINE, QUOTE];
    assert DigitToVal(At(s, 3)) == 0 && DigitToVal(At(s, 4)) == 0;
    assert DigitToVal(At(s, 5)) == 14 && DigitToVal(At(s, 6)) == 9;
    assert EscapeAt(s, 1) == Some(Escape([0xc3, 0xa9], 6));
    assert RfcEscape(s, 1) == Some(Escape([0xc3, 0xa9], 6));
    assert Unescape(s, 7) == Some(Unescaped([], 7)) && RfcString(s, 7) == Some(Unescaped([], 7));
    assert [0xc3, 0xa9] + [] == [0xc3, 0xa9];
    assert Unescape(s, 1) == UnescapeEscape(s, 1);
  }

  /** `"\udc00"` is read as the bytes ED B0 80, which are not UTF-8. */
  lemma LoneSurrogateSpoils()
    ensures var s := [QUOTE, BACKSLASH, LOWER_U, 0x64, 0x63, ZERO, ZERO, QUOTE];
            WellFormed(s) && Unescape(s, 1) == Some(Unescaped([0xed, 0xb0, 0x80], 7)) && !WellFormed([0xed, 0xb0, 0x80])
  {
    var s: seq<byte> := [QUOTE, BACKSLASH, LOWER_U, 0x64, 0x63, ZERO, ZERO, QUOTE];
    AsciiKeepsStart(s, 0, 8);
    AutomatonRecognises(s, 0);
    assert DigitToVal(At(s, 3)) == 13 && DigitToVal(At(s, 4)) == 12;
    assert DigitToVal(At(s, 5)) == 0 && DigitToVal(At(s, 6)) == 0;
    assert HexValue(s, 3) == 0xdc00;
    LoneLow(s, 1);
    var r: seq<byte> := [0xed, 0xb0, 0x80];
    assert Encode(0xdc00) == r && r + [] == r;
    assert Unescape(s, 7) == Some(Unescaped([], 7));
    assert Unescape(s, 1) == UnescapeEscape(s, 1);
  }
}
