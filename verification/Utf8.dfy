/** Well-formed UTF-8 by section 4 of RFC 3629, and the automaton that recognises it byte by byte. */
module Utf8 {
  import opened Bytes

  predicate IsTail(b: byte) {
    0x80 <= b <= 0xbf
  }

  /** Length of the well-formed sequence that starts at position `i`, or 0 when there is none. */
  function SequenceAt(s: seq<byte>, i: nat): (n: nat)
    requires i < |s|
    ensures i + n <= |s|
  {
    var b, rest := s[i], |s| - i;
    if b < 0x80 then 1
    else if 0xc2 <= b <= 0xdf && rest >= 2 && IsTail(s[i + 1]) then 2
    else if 0xe0 <= b <= 0xef && rest >= 3
            && (if b == 0xe0 then 0xa0 else 0x80) <= s[i + 1] <= (if b == 0xed then 0x9f else 0xbf)
            && IsTail(s[i + 2]) then 3
    else if 0xf0 <= b <= 0xf4 && rest >= 4
            && (if b == 0xf0 then 0x90 else 0x80) <= s[i + 1] <= (if b == 0xf4 then 0x8f else 0xbf)
            && IsTail(s[i + 2]) && IsTail(s[i + 3]) then 4
    else 0
  }

  /** The bytes from position `i` on are a string of well-formed sequences. */
  predicate WellFormedFrom(s: seq<byte>, i: nat)
    requires i <= |s|
    decreases |s| - i
  {
    i == |s| || (SequenceAt(s, i) > 0 && WellFormedFrom(s, i + SequenceAt(s, i)))
  }

  predicate WellFormed(s: seq<byte>) {
    WellFormedFrom(s, 0)
  }

  // ----- the automaton

  /** `Expect(n, lo, hi)`: `n` more continuation bytes are due, the next one between `lo` and `hi`. */
  datatype State = Bad | Expect(due: nat, lo: byte, hi: byte)

  const START := Expect(0, 0x80, 0xbf)

  /** State after a byte that starts a sequence. C0 and C1 start one that no byte can continue. */
  function Lead(b: byte): State {
    if b < 0x80 then START
    else if b < 0xc0 then Bad
    else if b < 0xc2 then Expect(1, 0xc0, 0x7f)
    else if b < 0xe0 then Expect(1, 0x80, 0xbf)
    else if b < 0xf0 then Expect(2, if b == 0xe0 then 0xa0 else 0x80, if b == 0xed then 0x9f else 0xbf)
    else if b <= 0xf4 then Expect(3, if b == 0xf0 then 0x90 else 0x80, if b == 0xf4 then 0x8f else 0xbf)
    else Bad
  }

  function Next(q: State, b: byte): State {
    if q.Bad? then Bad
    else if q.due == 0 then Lead(b)
    else if q.lo <= b <= q.hi then Expect(q.due - 1, 0x80, 0xbf)
    else Bad
  }

  function StateAfter(s: seq<byte>, i: nat): State
    requires i <= |s|
  {
    if i == 0 then START else Next(StateAfter(s, i - 1), s[i - 1])
  }

  /** No byte repairs a bad input. */
  lemma {:induction false} BadStays(s: seq<byte>, i: nat, j: nat)
    requires i <= j <= |s|
    ensures StateAfter(s, i).Bad? ==> StateAfter(s, j).Bad?
    decreases j
  {
    if i < j { BadStays(s, i, j - 1); }
  }

  lemma {:induction false} StateOfPrefix(s: seq<byte>, t: seq<byte>, i: nat)
    requires i <= |s| && s <= t
    ensures StateAfter(t, i) == StateAfter(s, i)
  {
    if i > 0 {
      StateOfPrefix(s, t, i - 1);
      assert s[i - 1] == t[i - 1];
    }
  }

  lemma {:induction false} AsciiKeepsStart(s: seq<byte>, i: nat, j: nat)
    requires i <= j <= |s| && StateAfter(s, i) == START
    requires forall k :: i <= k < j ==> s[k] < 0x80
    ensures StateAfter(s, j) == START
    decreases j
  {
    if i < j { AsciiKeepsStart(s, i, j - 1); }
  }

  lemma {:induction false} DueZeroIsStart(s: seq<byte>, i: nat)
    requires i <= |s|
    ensures StateAfter(s, i).Expect? ==>
              if StateAfter(s, i).due == 0 then StateAfter(s, i) == START
              else StateAfter(s, i).lo >= 0x80
  {
    if i > 0 { DueZeroIsStart(s, i - 1); }
  }

  /** The automaton ends where it started exactly on well-formed input. */
  lemma {:induction false} AutomatonRecognises(s: seq<byte>, i: nat)
    requires i <= |s| && StateAfter(s, i) == START
    ensures WellFormedFrom(s, i) <==> StateAfter(s, |s|) == START
    decreases |s| - i
  {
    if i < |s| {
      var n := SequenceAt(s, i);
      if n > 0 {
        SequenceReturns(s, i);
        AutomatonRecognises(s, i + n);
      } else {
        NoSequence(s, i);
      }
    }
  }

  lemma SequenceReturns(s: seq<byte>, i: nat)
    requires i < |s| && StateAfter(s, i) == START && SequenceAt(s, i) > 0
    ensures StateAfter(s, i + SequenceAt(s, i)) == START
  {
    var n := SequenceAt(s, i);
    assert StateAfter(s, i + 1) == Lead(s[i]);
    if n > 1 { assert StateAfter(s, i + 2) == Next(StateAfter(s, i + 1), s[i + 1]); }
    if n > 2 { assert StateAfter(s, i + 3) == Next(StateAfter(s, i + 2), s[i + 2]); }
  }

  lemma NoSequence(s: seq<byte>, i: nat)
    requires i < |s| && StateAfter(s, i) == START && SequenceAt(s, i) == 0
    ensures StateAfter(s, |s|) != START
  {
    assert StateAfter(s, i + 1) == Lead(s[i]);
    if StateAfter(s, i + 1).Bad? { BadStays(s, i + 1, |s|); return; }
    if i + 1 == |s| { return; }
    assert StateAfter(s, i + 2) == Next(StateAfter(s, i + 1), s[i + 1]);
    if StateAfter(s, i + 2).Bad? { BadStays(s, i + 2, |s|); return; }
    if i + 2 == |s| { return; }
    assert StateAfter(s, i + 3) == Next(StateAfter(s, i + 2), s[i + 2]);
    if StateAfter(s, i + 3).Bad? { BadStays(s, i + 3, |s|); return; }
    if i + 3 == |s| { return; }
    assert StateAfter(s, i + 4) == Next(StateAfter(s, i + 3), s[i + 3]);
    BadStays(s, i + 4, |s|);
  }
}
