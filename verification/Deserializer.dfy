/** The cursor over the structural index, and the unescaping of strings in place. */
module Deserializing {
  import opened Bytes
  import opened Masks
  import opened Simd
  import opened Scanner
  import opened Escapes
  import opened Strings
  import opened Numbers
  import opened NumberParse

  /** A part of the input: where a string ends up. */
  datatype Slice = Slice(start: nat, len: nat)

  /** Lanes of `v` that lie in the input are its bytes from `pos` on. */
  ghost predicate Loads(s: seq<byte>, pos: nat, v: Register) {
    pos <= |s| && forall j :: 0 <= j < LANES && pos + j < |s| ==> v[j] == s[pos + j]
  }

  function LaneMask(v: Register, b: byte): (m: Mask)
    ensures |m| == LANES && forall j :: 0 <= j < LANES ==> m[j] == (v[j] == b)
  {
    Movemask(CmpEq(v, Set1(b)))
  }

  /** The first special byte of a register. */
  datatype First = QuoteFirst(dist: nat) | BackslashFirst(dist: nat) | Neither {
    function Plain(): nat {
      if Neither? then LANES else dist
    }
  }

  ghost predicate IsFirst(v: Register, f: First) {
    && (f.Neither? || (f.dist < LANES && v[f.dist] == if f.QuoteFirst? then QUOTE else BACKSLASH))
    && forall j :: 0 <= j < f.Plain() ==> IsPlain(v[j])
  }

  /** Compares the masks of quotes and backslashes without a branch per byte. */
  method FindFirst(v: Register) returns (f: First)
    ensures IsFirst(v, f)
  {
    var bsBits, quoteBits := LaneMask(v, BACKSLASH), LaneMask(v, QUOTE);
    FirstBefore(bsBits, quoteBits);
    FirstBefore(quoteBits, bsBits);
    if !IsZero(And(WrappingSub1(bsBits), quoteBits)) {
      return QuoteFirst(TrailingZeros(quoteBits));
    }
    if !IsZero(And(WrappingSub1(quoteBits), bsBits)) {
      return BackslashFirst(TrailingZeros(bsBits));
    }
    return Neither;
  }

  /** What comes first lies in the input, not past the closing quote `c`; before it are plain bytes. */
  lemma FirstInInput(s: seq<byte>, pos: nat, c: nat, v: Register, f: First)
    requires Loads(s, pos, v) && pos <= c < |s| && s[c] == QUOTE && IsFirst(v, f)
    ensures pos + f.Plain() <= c && (forall j :: pos <= j < pos + f.Plain() ==> IsPlain(s[j]))
    ensures f.QuoteFirst? ==> s[pos + f.dist] == QUOTE
    ensures f.BackslashFirst? ==> s[pos + f.dist] == BACKSLASH
  {
    var n := f.Plain();
    var i := c - pos;
    assert i < LANES ==> v[i] == s[pos + i];
    forall j | pos <= j < pos + n ensures IsPlain(s[j]) {
      assert v[j - pos] == s[pos + (j - pos)];
    }
  }

  /** The state of the first loop: nothing but plain bytes so far. */
  ghost predicate PlainUpTo(s: seq<byte>, open: nat, c: nat, pos: nat) {
    open < pos <= c && Closing(s, open, c) && forall j :: open < j < pos ==> IsPlain(s[j])
  }

  lemma PlainStep(s: seq<byte>, open: nat, c: nat, pos: nat, v: Register, f: First)
    requires PlainUpTo(s, open, c, pos) && Loads(s, pos, v) && IsFirst(v, f)
    ensures PlainUpTo(s, open, c, pos + f.Plain())
    ensures f.QuoteFirst? ==> s[pos + f.dist] == QUOTE
    ensures f.BackslashFirst? ==> s[pos + f.dist] == BACKSLASH
  {
    FirstInInput(s, pos, c, v, f);
  }

  lemma {:induction false} PlainNotEscaped(s: seq<byte>, i: nat, j: nat)
    requires 0 < i <= j <= |s| && s[i - 1] == QUOTE && forall k :: i <= k < j ==> IsPlain(s[k])
    ensures !Escaped(s, j)
  {}

  /** The second loop has read up to `pos` and produced `out`, behind `len` bytes that stay in place. */
  ghost predicate Copied(s: seq<byte>, open: nat, c: nat, len: nat, pos: nat, out: seq<byte>) {
    && open + 1 + len <= pos <= c < |s| && s[c] == QUOTE && !Escaped(s, pos) && |out| <= pos - (open + 1 + len)
    && Unescape(s, open + 1) == Prepend(s[open + 1..open + 1 + len] + out, Unescape(s, pos))
  }

  lemma NothingCopied(s: seq<byte>, open: nat, c: nat, len: nat)
    requires PlainUpTo(s, open, c, open + 1 + len)
    ensures Copied(s, open, c, len, open + 1 + len, [])
  {
    var pos := open + 1 + len;
    UnescapePlain(s, open + 1, pos);
    PlainNotEscaped(s, open + 1, pos);
    assert s[open + 1..pos] + [] == s[open + 1..pos];
  }

  lemma CopyPlain(s: seq<byte>, open: nat, c: nat, len: nat, pos: nat, out: seq<byte>, n: nat)
    requires Copied(s, open, c, len, pos, out) && pos + n <= c
    requires forall j :: pos <= j < pos + n ==> IsPlain(s[j])
    ensures Copied(s, open, c, len, pos + n, out + s[pos..pos + n])
  {
    UnescapePlain(s, pos, pos + n);
    StillNotEscaped(s, pos, pos + n);
    var head := s[open + 1..open + 1 + len];
    PrependTwice(head + out, s[pos..pos + n], Unescape(s, pos + n));
    assert head + out + s[pos..pos + n] == head + (out + s[pos..pos + n]);
  }

  lemma {:induction false} StillNotEscaped(s: seq<byte>, i: nat, j: nat)
    requires i <= j <= |s| && !Escaped(s, i) && forall k :: i <= k < j ==> IsPlain(s[k])
    ensures !Escaped(s, j)
    decreases j
  {
    if i < j { EscapedStep(s, j - 1); }
  }

  lemma CopyEscape(s: seq<byte>, open: nat, c: nat, len: nat, pos: nat, out: seq<byte>)
    requires Closing(s, open, c)
    requires Copied(s, open, c, len, pos, out) && s[pos] == BACKSLASH
    ensures EscapeAt(s, pos).None? ==> Unescape(s, open + 1).None?
    ensures EscapeAt(s, pos).Some? ==>
              var e := EscapeAt(s, pos).value;
              Copied(s, open, c, len, pos + e.len, out + e.bytes)
  {
    assert Unescape(s, pos) == UnescapeEscape(s, pos);
    if EscapeAt(s, pos).Some? {
      var e := EscapeAt(s, pos).value;
      EscapeBounds(s, pos);
      EscapeStep(s, pos);
      assert c >= pos + e.len;
      var head := s[open + 1..open + 1 + len];
      PrependTwice(head + out, e.bytes, Unescape(s, pos + e.len));
      assert head + out + e.bytes == head + (out + e.bytes);
    }
  }

  /** Plain lanes stored at the end of the output. */
  lemma LanesCopied(s: seq<byte>, open: nat, c: nat, len: nat, pos: nat, v: Register, out: seq<byte>, n: nat)
    requires Copied(s, open, c, len, pos, out) && Loads(s, pos, v) && n <= LANES && pos + n <= c
    requires forall j :: pos <= j < pos + n ==> IsPlain(s[j])
    ensures Copied(s, open, c, len, pos + n, out + v[..n])
  {
    assert v[..n] == s[pos..pos + n];
    CopyPlain(s, open, c, len, pos, out, n);
  }

  /** `t` is `s` with `b` in place of as many bytes from position `p` on. */
  ghost predicate Replaces(s: seq<byte>, t: seq<byte>, p: nat, b: seq<byte>) {
    |t| == |s| && p + |b| <= |s| && t[p..p + |b|] == b
    && forall k {:trigger t[k]} :: 0 <= k < |s| && !(p <= k < p + |b|) ==> t[k] == s[k]
  }

  /**
   The string opened at `open` of `s` has been read: `t` is `s` with the unescaped bytes in front of what
   was between the quotes, and the result is where they are; an illegal escape changes nothing.
   */
  ghost predicate Rewritten(s: seq<byte>, t: seq<byte>, open: nat, c: nat, r: Result<Slice>) {
    match Unescape(s, open + 1)
    case None => r.Err? && t == s
    case Some(u) => u.end == c && r == Ok(Slice(open + 1, |u.bytes|)) && Replaces(s, t, open + 1, u.bytes)
  }

  lemma CopyDone(s: seq<byte>, open: nat, c: nat, len: nat, pos: nat, out: seq<byte>, t: seq<byte>)
    requires Closing(s, open, c) && Copied(s, open, c, len, pos, out) && s[pos] == QUOTE
    requires Replaces(s, t, open + 1 + len, out)
    ensures Rewritten(s, t, open, c, Ok(Slice(open + 1, len + |out|)))
  {
    var p := open + 1 + len;
    var head := s[open + 1..p];
    assert head + out + [] == head + out;
    assert IsQuote(s, pos);
    assert t[open + 1..p + |out|] == head + out by {
      assert t[open + 1..p + |out|] == t[open + 1..p] + t[p..p + |out|];
    }
  }

  lemma PlainClosed(s: seq<byte>, open: nat, c: nat, len: nat)
    requires PlainUpTo(s, open, c, open + 1 + len) && s[open + 1 + len] == QUOTE
    ensures Rewritten(s, s, open, c, Ok(Slice(open + 1, len)))
  {
    NothingCopied(s, open, c, len);
    CopyDone(s, open, c, len, open + 1 + len, [], s);
  }

  /** The lanes before the first special one, `more`, have been copied. */
  ghost predicate BlockCopied(s: seq<byte>, open: nat, c: nat, len: nat, pos: nat, out: seq<byte>,
                              f: First, more: seq<byte>)
  {
    && |more| == f.Plain() && Copied(s, open, c, len, pos + f.Plain(), out + more)
    && (f.QuoteFirst? ==> s[pos + f.dist] == QUOTE) && (f.BackslashFirst? ==> s[pos + f.dist] == BACKSLASH)
  }

  lemma BlockIsCopied(s: seq<byte>, open: nat, c: nat, len: nat, pos: nat, v: Register, out: seq<byte>, f: First)
    requires Copied(s, open, c, len, pos, out) && Loads(s, pos, v) && IsFirst(v, f)
    ensures BlockCopied(s, open, c, len, pos, out, f, v[..f.Plain()])
  {
    FirstInInput(s, pos, c, v, f);
    LanesCopied(s, open, c, len, pos, v, out, f.Plain());
  }

  lemma StoredPrefix(strings: seq<byte>, d: nat, v: Register, n: nat)
    requires d + LANES <= |strings| && strings[d..d + LANES] == v && n <= LANES
    ensures strings[..d + n] == strings[..d] + v[..n]
  {
    assert v[..n] == strings[d..d + n];
  }

  /** How a round of the second loop ends. */
  datatype Round = More | Closed | Failed(error: ErrorType)

  class Deserializer {
    const input: array<byte>
    const strings: array<byte>
    const structuralIndexes: seq<nat>
    const counts: seq<nat>
    var idx: nat
    var iidx: nat
    var strOffset: nat

    /** Whether fractions are scanned eight digits at a time. */
    const swar: bool

    ghost predicate Valid() {
      input != strings && strings.Length == input.Length + LANES && |counts| == |structuralIndexes|
    }

    constructor (input: array<byte>, structuralIndexes: seq<nat>, counts: seq<nat>, swar: bool)
      requires |counts| == |structuralIndexes|
      ensures Valid() && fresh(strings) && this.input == input
      ensures this.structuralIndexes == structuralIndexes && this.counts == counts
      ensures idx == 0 && iidx == 0
    {
      this.input, this.structuralIndexes, this.counts, this.swar := input, structuralIndexes, counts, swar;
      this.strings := new byte[input.Length + LANES];
      idx, iidx, strOffset := 0, 0, 0;
    }

    // ----- the cursor: no bounds are checked at run time

    /** Moves on to the next structural index. */
    method Skip()
      requires idx + 1 < |structuralIndexes|
      modifies this`idx, this`iidx
      ensures idx == old(idx) + 1 && iidx == structuralIndexes[idx]
    {
      idx := idx + 1;
      iidx := structuralIndexes[idx];
    }

    /** Moves on and returns the byte there. */
    method Next() returns (c: byte)
      requires idx + 1 < |structuralIndexes| && structuralIndexes[idx + 1] < input.Length
      modifies this`idx, this`iidx
      ensures idx == old(idx) + 1 && iidx == structuralIndexes[idx] && c == input[iidx]
    {
      idx := idx + 1;
      iidx := structuralIndexes[idx];
      c := input[iidx];
    }

    /** Moves on and returns the byte there, with a check that there is one. */
    method NextChecked() returns (r: Result<byte>)
      requires idx + 1 < |structuralIndexes| ==> structuralIndexes[idx + 1] < input.Length
      modifies this`idx, this`iidx
      ensures idx == old(idx) + 1
      ensures idx < |structuralIndexes| ==> iidx == structuralIndexes[idx] && r == Ok(input[iidx])
      ensures idx >= |structuralIndexes| ==> r.Err?
    {
      idx := idx + 1;
      if idx < |structuralIndexes| {
        iidx := structuralIndexes[idx];
        return Ok(input[iidx]);
      } else {
        return Err(Syntax);
      }
    }

    function CountElements(): nat
      requires idx < |counts|
      reads this`idx
    {
      counts[idx]
    }

    /** The number at the cursor, which is at its first byte. */
    method ParseNumber(minus: bool, ghost s: seq<byte>) returns (r: Result<Number>)
      requires iidx <= input.Length && input[..] == s
      ensures Judged(s[iidx..], minus, r)
    {
      assert input[iidx..] == s[iidx..];
      r := ParseNumberInt(input[iidx..], minus, swar);
    }

    // ----- strings

    /** 32 bytes from `pos` on; past the end of the input, whatever the padding buffer held before. */
    method Load(pos: nat, padding: Register) returns (v: Register, newPadding: Register)
      requires pos <= input.Length
      ensures Loads(input[..], pos, v)
    {
      if input.Length >= pos + LANES {
        v, newPadding := input[pos..pos + LANES], padding;
      } else {
        newPadding := input[pos..] + padding[input.Length - pos..];
        v := newPadding;
      }
    }

    /** The first loop: up to the closing quote, or up to the first backslash. */
    method ScanPlain(ghost s: seq<byte>, ghost c: nat) returns (closed: bool, len: nat, padding: Register)
      requires Valid() && input[..] == s && Closing(s, iidx, c)
      ensures PlainUpTo(s, iidx, c, iidx + 1 + len)
      ensures s[iidx + 1 + len] == if closed then QUOTE else BACKSLASH
    {
      var start := iidx + 1;
      padding := Set1(0);
      var srcI := 0;
      len := srcI;
      while true
        invariant srcI == len && PlainUpTo(s, iidx, c, start + srcI)
        decreases c - srcI
      {
        var v;
        v, padding := Load(start + srcI, padding);
        var f := FindFirst(v);
        PlainStep(s, iidx, c, start + srcI, v, f);
        match f
        case QuoteFirst(dist) =>
          return true, len + dist, padding;
        case BackslashFirst(dist) =>
          return false, len + dist, padding;
        case Neither =>
          srcI := srcI + 32;
          len := len + 32;
      }
    }

    method StoreRegister(d: nat, v: Register)
      requires Valid() && d + LANES <= strings.Length
      modifies strings
      ensures strings[..d] == old(strings[..d]) && strings[d..d + LANES] == v
    {
      forall j | 0 <= j < LANES {
        strings[d + j] := v[j];
      }
    }

    /** Reads the escape at `p` and writes what it stands for at `d`: returns the lengths written and read. */
    method ReadEscape(p: nat, d: nat, ghost s: seq<byte>, ghost out: seq<byte>) returns (r: Result<(nat, nat)>)
      requires Valid() && p + 1 < input.Length && d + 4 <= strings.Length
      requires input[..] == s && strings[..d] == out
      modifies strings
      ensures r.Ok? <==> EscapeAt(s, p).Some?
      ensures r.Ok? ==> var e := EscapeAt(s, p).value;
                        r.value == (|e.bytes|, e.len) && strings[..d + |e.bytes|] == out + e.bytes
    {
      EscapeBounds(s, p);
      var escapeChar := input[p + 1];
      if escapeChar == LOWER_U {
        r := HandleUnicodeCodepoint(input, p, strings, d);
        if r.Err? || r.value.0 == 0 {
          return Err(InvalidUnicodeCodepoint);
        }
      } else {
        var escapeResult := EscapeMap(escapeChar);
        if escapeResult == 0 {
          return Err(InvalidEscape);
        }
        strings[d] := escapeResult;
        return Ok((1, 2));
      }
    }

    method CopyOneEscape(pos: nat, d: nat, ghost s: seq<byte>, ghost c: nat, ghost len: nat, ghost out: seq<byte>)
      returns (o: Round, newPos: nat, newDst: nat, ghost newOut: seq<byte>)
      requires Valid() && input[..] == s && d + LANES <= strings.Length && strings[..d] == out
      requires Closing(s, iidx, c) && Copied(s, iidx, c, len, pos, out) && s[pos] == BACKSLASH
      modifies strings
      ensures o.Failed? ==> Unescape(s, iidx + 1).None?
      ensures !o.Failed? ==> o.More? && newPos > pos && Copied(s, iidx, c, len, newPos, newOut)
      ensures !o.Failed? ==> |newOut| == newDst <= strings.Length && strings[..newDst] == newOut
    {
      newPos, newDst, newOut := pos, d, out;
      CopyEscape(s, iidx, c, len, pos, out);
      EscapeBounds(s, pos);
      var step := ReadEscape(pos, d, s, out);
      if step.Err? {
        o := Failed(step.error);
      } else {
        o := More;
        newPos, newDst, newOut := pos + step.value.1, d + step.value.0, out + EscapeAt(s, pos).value.bytes;
      }
    }

    /** Moves the first `n` bytes of the string buffer to position `p` of the input. */
    method WriteBack(p: nat, n: nat, ghost s: seq<byte>, ghost out: seq<byte>)
      requires Valid() && p + n <= input.Length && input[..] == s && strings[..n] == out
      modifies input
      ensures Replaces(s, input[..], p, out)
    {
      forall j | 0 <= j < n {
        input[p + j] := strings[j];
      }
      assert forall j :: 0 <= j < n ==> out[j] == strings[j];
    }

    /** Stores the next 32 bytes at the end of the output and tells what is special among them. */
    method CopyBlock(pos: nat, dstI: nat, padding: Register, ghost s: seq<byte>, ghost c: nat, ghost len: nat,
                     ghost out: seq<byte>)
      returns (f: First, newPadding: Register, ghost more: seq<byte>)
      requires Valid() && input[..] == s && dstI + LANES <= strings.Length && strings[..dstI] == out
      requires Copied(s, iidx, c, len, pos, out)
      modifies strings
      ensures BlockCopied(s, iidx, c, len, pos, out, f, more)
      ensures strings[..dstI + |more|] == out + more
    {
      var v;
      v, newPadding := Load(pos, padding);
      StoreRegister(dstI, v);
      f := FindFirst(v);
      BlockIsCopied(s, iidx, c, len, pos, v, out, f);
      more := v[..f.Plain()];
      StoredPrefix(strings[..], dstI, v, f.Plain());
    }

    /** One round: copies plain bytes, then stops at the closing quote or takes in an escape. */
    method CopyRound(pos: nat, dstI: nat, padding: Register, ghost s: seq<byte>, ghost c: nat, ghost len: nat,
                     ghost out: seq<byte>)
      returns (o: Round, newPos: nat, newDst: nat, newPadding: Register, ghost newOut: seq<byte>)
      requires Valid() && input[..] == s && dstI + LANES <= strings.Length && strings[..dstI] == out
      requires Closing(s, iidx, c) && Copied(s, iidx, c, len, pos, out)
      modifies strings
      ensures o.Failed? ==> Unescape(s, iidx + 1).None?
      ensures !o.Failed? ==> Copied(s, iidx, c, len, newPos, newOut)
      ensures !o.Failed? ==> |newOut| == newDst <= strings.Length && strings[..newDst] == newOut
      ensures o.More? ==> newPos > pos
      ensures o.Closed? ==> s[newPos] == QUOTE
    {
      var f;
      ghost var more;
      f, newPadding, more := CopyBlock(pos, dstI, padding, s, c, len, out);
      newPos, newDst, newOut := pos + f.Plain(), dstI + f.Plain(), out + more;
      match f
      case QuoteFirst(_) => o := Closed;
      case Neither => o := More;
      case BackslashFirst(_) =>
        o, newPos, newDst, newOut := CopyOneEscape(newPos, newDst, s, c, len, newOut);
    }

    /** At the closing quote, the output goes back behind the plain part. */
    method Finish(len: nat, n: nat, ghost s: seq<byte>, ghost c: nat, ghost pos: nat, ghost out: seq<byte>)
      returns (r: Result<Slice>)
      requires Valid() && input[..] == s && n <= strings.Length && strings[..n] == out
      requires Closing(s, iidx, c) && Copied(s, iidx, c, len, pos, out) && s[pos] == QUOTE
      modifies this`strOffset, input
      ensures Rewritten(s, input[..], iidx, c, r)
    {
      strOffset := strOffset + n;
      WriteBack(iidx + 1 + len, n, s, out);
      CopyDone(s, iidx, c, len, pos, out, input[..]);
      return Ok(Slice(iidx + 1, len + n));
    }

    /** The second loop: unescapes the rest into the string buffer and moves it behind the plain part. */
    method CopyUnescaped(len: nat, padding0: Register, ghost s: seq<byte>, ghost c: nat) returns (r: Result<Slice>)
      requires Valid() && input[..] == s && Closing(s, iidx, c) && Copied(s, iidx, c, len, iidx + 1 + len, [])
      modifies this`strOffset, input, strings
      ensures Rewritten(s, input[..], iidx, c, r)
    {
      var start := iidx + 1;
      var padding := padding0;
      var pos: nat, dstI: nat := start + len, 0;
      ghost var out: seq<byte> := [];
      while true
        invariant input[..] == s && |out| == dstI <= strings.Length && strings[..dstI] == out
        invariant Copied(s, iidx, c, len, pos, out)
        decreases c - pos
      {
        var o;
        o, pos, dstI, padding, out := CopyRound(pos, dstI, padding, s, c, len, out);
        match o
        case More =>
        case Failed(e) => return Err(e);
        case Closed =>
          r := Finish(len, dstI, s, c, pos, out);
          return;
      }
    }

    /**
     Unescapes the string at the cursor in place: 32 bytes at a time, first without writing, then through
     the string buffer.
     */
    method ParseStr(ghost c: nat) returns (r: Result<Slice>)
      requires Valid() && Closing(input[..], iidx, c)
      modifies this`strOffset, input, strings
      ensures Rewritten(old(input[..]), input[..], iidx, c, r)
    {
      ghost var s := input[..];
      var closed, len, padding := ScanPlain(s, c);
      if closed {
        PlainClosed(s, iidx, c, len);
        return Ok(Slice(iidx + 1, len));
      }
      NothingCopied(s, iidx, c, len);
      r := CopyUnescaped(len, padding, s, c);
    }
  }
}
