/** The writer: strings are escaped block by block, values printed compactly or with indentation. */
module Generator {
  import opened Bytes
  import opened Masks
  import opened Simd
  import opened Values

  // ----- escapes on output

  /** The table of bytes that are written as escapes: the letter of the escape, or 0. */
  function EscapeLetter(b: byte): byte {
    if b == 0x08 then LOWER_B
    else if b == 0x09 then LOWER_T
    else if b == 0x0a then LOWER_N
    else if b == 0x0c then LOWER_F
    else if b == 0x0d then LOWER_R
    else if b < 0x20 then LOWER_U
    else if b == QUOTE then QUOTE
    else if b == BACKSLASH then BACKSLASH
    else 0
  }

  predicate NeedsEscape(b: byte) {
    EscapeLetter(b) > 0
  }

  function HexDigit(n: nat): byte
    requires n < 16
  {
    if n < 10 then ZERO + n else 0x61 + n - 10
  }

  /** Four hex digits. */
  function Hex4(b: byte): seq<byte> {
    [ZERO, ZERO, HexDigit(b / 16), HexDigit(b % 16)]
  }

  /** How one byte of a string is written. */
  function EscapeByte(b: byte): (r: seq<byte>)
    ensures r != []
  {
    if EscapeLetter(b) == 0 then [b]
    else if EscapeLetter(b) == LOWER_U then [BACKSLASH, LOWER_U] + Hex4(b)
    else [BACKSLASH, EscapeLetter(b)]
  }

  /** The first `n` bytes of `s`, each written by `f`. */
  function Pieces(f: byte -> seq<byte>, s: seq<byte>, n: nat): seq<byte>
    requires n <= |s|
  {
    if n == 0 then [] else Pieces(f, s, n - 1) + f(s[n - 1])
  }

  /** The first `n` bytes of a string as they are written. */
  function EscapeUpTo(s: seq<byte>, n: nat): seq<byte>
    requires n <= |s|
  {
    Pieces(EscapeByte, s, n)
  }

  function EscapeAll(s: seq<byte>): seq<byte> {
    EscapeUpTo(s, |s|)
  }

  function Quoted(s: seq<byte>): seq<byte> {
    [QUOTE] + EscapeAll(s) + [QUOTE]
  }

  /** Bytes `[i..j)` of `s` need no escape. */
  predicate PlainIn(s: seq<byte>, i: nat, j: nat) {
    i <= j <= |s| && forall k :: i <= k < j ==> !NeedsEscape(s[k])
  }

  /** A plain stretch is written as it is. */
  lemma {:induction false} EscapePlain(s: seq<byte>, i: nat, j: nat)
    requires PlainIn(s, i, j)
    ensures EscapeUpTo(s, j) == EscapeUpTo(s, i) + s[i..j]
    decreases j
  {
    if i < j {
      EscapePlain(s, i, j - 1);
      assert s[i..j] == s[i..j - 1] + [s[j - 1]];
      Associate(EscapeUpTo(s, i), s[i..j - 1], [s[j - 1]]);
    }
  }

  lemma Associate(a: seq<byte>, b: seq<byte>, c: seq<byte>)
    ensures a + (b + c) == a + b + c
  {}

  /** What is written of a string goes on with what is written of its rest. */
  lemma {:induction false} PiecesRebased(f: byte -> seq<byte>, s: seq<byte>, k: nat, n: nat)
    requires k <= |s| && n <= |s| - k
    ensures Pieces(f, s, k + n) == Pieces(f, s, k) + Pieces(f, s[k..], n)
  {
    if n > 0 {
      var rest := s[k..];
      PiecesRebased(f, s, k, n - 1);
      assert rest[n - 1] == s[k + n - 1];
      Associate(Pieces(f, s, k), Pieces(f, rest, n - 1), f(rest[n - 1]));
    }
  }

  /** Nothing below a space is written inside a string. */
  lemma {:induction false} NoControlWritten(s: seq<byte>, n: nat, i: nat)
    requires n <= |s| && i < |EscapeUpTo(s, n)|
    ensures EscapeUpTo(s, n)[i] >= 0x20
  {
    if i < |EscapeUpTo(s, n - 1)| { NoControlWritten(s, n - 1, i); }
  }

  // ----- finding what needs an escape, many lanes at a time

  function CmpEqLanes(a: seq<byte>, b: byte): seq<byte> {
    seq(|a|, i requires 0 <= i < |a| => AllBits(a[i] == b))
  }

  function OrLanes(a: seq<byte>, b: seq<byte>): seq<byte>
    requires |a| == |b|
  {
    seq(|a|, i requires 0 <= i < |a| => BitOr8(a[i], b[i]))
  }

  function AndLanes(a: seq<byte>, b: byte): seq<byte> {
    seq(|a|, i requires 0 <= i < |a| => BitAnd8(a[i], b))
  }

  function XorLanes(a: seq<byte>, b: seq<byte>): seq<byte>
    requires |a| == |b|
  {
    seq(|a|, i requires 0 <= i < |a| => BitXor8(a[i], b[i]))
  }

  function BitXor8(a: byte, b: byte): byte {
    BitXorBelow(a, b, 8);
    BitXor(a, b)
  }

  lemma {:induction false} BitXorBelow(a: nat, b: nat, n: nat)
    requires a < Pow2(n) && b < Pow2(n)
    ensures BitXor(a, b) < Pow2(n)
  {
    if n > 0 { BitXorBelow(a / 2, b / 2, n - 1); }
  }

  function MovemaskLanes(a: seq<byte>): Mask {
    seq(|a|, i requires 0 <= i < |a| => a[i] >= 128)
  }

  /** Marks quotes, backslashes, and the bytes that masking with 0x1f leaves unchanged. */
  function QuoteBits(data: seq<byte>): Mask {
    var bsOrQuote := OrLanes(CmpEqLanes(data, BACKSLASH), CmpEqLanes(data, QUOTE));
    var inQuoteRange := AndLanes(data, 0x1f);
    var isUnchanged := XorLanes(data, inQuoteRange);
    var inRange := CmpEqLanes(isUnchanged, 0);
    MovemaskLanes(OrLanes(bsOrQuote, inRange))
  }

  lemma InRangeLane(b: byte)
    ensures BitXor8(b, BitAnd8(b, 0x1f)) == 0 <==> b < 0x20
  {
    BitAnd1f(b);
    BitXorZero(b, BitAnd8(b, 0x1f));
  }

  lemma OrAllBits(a: bool, b: bool)
    ensures BitOr8(AllBits(a), AllBits(b)) >= 128 <==> a || b
    ensures BitOr8(AllBits(a), AllBits(b)) == AllBits(a || b)
  {
    var x, y := AllBits(a), AllBits(b);
    BitOrBound(x, y);
  }

  /** The mask marks exactly the bytes with an entry in the table. */
  lemma QuoteBitsExact(data: seq<byte>)
    ensures |QuoteBits(data)| == |data|
    ensures forall i :: 0 <= i < |data| ==> (QuoteBits(data)[i] <==> NeedsEscape(data[i]))
  {
    forall i | 0 <= i < |data| ensures QuoteBits(data)[i] <==> NeedsEscape(data[i]) {
      InRangeLane(data[i]);
      OrAllBits(data[i] == BACKSLASH, data[i] == QUOTE);
      OrAllBits(data[i] == BACKSLASH || data[i] == QUOTE, data[i] < 0x20);
    }
  }

  // ----- what is printed

  type u16 = n: int | 0 <= n < 0x1_0000

  /** What distinguishes the generators, and how a float is printed. */
  datatype Style = Style(pretty: bool, spaces: u16, formatFloat: real -> seq<byte>)

  function Digits(n: nat): seq<byte> {
    if n < 10 then [ZERO + n] else Digits(n / 10) + [ZERO + n % 10]
  }

  /** An integer in canonical decimal. */
  function Decimal(i: int): seq<byte> {
    if i < 0 then [MINUS] + Digits(-i) else Digits(i)
  }

  function Spaces(n: nat): seq<byte> {
    seq<byte>(n, _ => SPACE)
  }

  /** A line break with its indentation; the product wraps around at 16 bits. */
  function NewLineText(st: Style, dent: u16): seq<byte> {
    if st.pretty then [LINEFEED] + Spaces(dent as int * st.spaces as int % 0x1_0000) else []
  }

  function ColonText(st: Style): seq<byte> {
    if st.pretty then [COLON, SPACE] else [COLON]
  }

  /** Indentation one level down; the counter wraps around, and only the indenting generator keeps it. */
  function Deeper(st: Style, dent: u16): u16 {
    if st.pretty then (dent as int + 1) % 0x1_0000 else dent
  }

  function Shallower(st: Style, dent: u16): u16 {
    if st.pretty then (dent as int + 0xffff) % 0x1_0000 else dent
  }

  function PrintScalar(st: Style, v: Value): seq<byte>
    requires !v.Array? && !v.Object?
  {
    match v
    case Null => NULL
    case Bool(b) => if b then TRUE else FALSE
    case I64(i) => Decimal(i)
    case F64(f) => st.formatFloat(f)
    case String(s) => Quoted(s)
  }

  /** A value as it is printed at an indentation depth. */
  function Print(st: Style, v: Value, dent: u16): seq<byte>
    decreases v, 0
  {
    match v
    case Array(es) => [LBRACKET] + (if es == [] then [RBRACKET] else PrintElems(st, es, Deeper(st, dent)))
    case Object(ms) => [LBRACE] + (if ms == [] then [RBRACE] else PrintMembers(st, ms, Deeper(st, dent)))
    case _ => PrintScalar(st, v)
  }

  /** Elements with the closing bracket. */
  function PrintElems(st: Style, es: seq<Value>, dent: u16): seq<byte>
    requires es != []
    decreases es, 1
  {
    NewLineText(st, dent) + (Print(st, es[0], dent) + ElemsRest(st, es[1..], dent))
  }

  function ElemsRest(st: Style, es: seq<Value>, dent: u16): seq<byte>
    decreases es, 2
  {
    if es == [] then NewLineText(st, Shallower(st, dent)) + [RBRACKET] else [COMMA] + PrintElems(st, es, dent)
  }

  /** Members with the closing brace. */
  function PrintMembers(st: Style, ms: seq<Member>, dent: u16): seq<byte>
    requires ms != []
    decreases ms, 1
  {
    var m := ms[0];
    NewLineText(st, dent) + (Quoted(m.key) + (ColonText(st) + (Print(st, m.value, dent) + MembersRest(st, ms[1..], dent))))
  }

  function MembersRest(st: Style, ms: seq<Member>, dent: u16): seq<byte>
    decreases ms, 2
  {
    if ms == [] then NewLineText(st, Shallower(st, dent)) + [RBRACE] else [COMMA] + PrintMembers(st, ms, dent)
  }

  /** A line break and an element, and then `rest`. */
  function ElementText(st: Style, v: Value, dent: u16, rest: seq<byte>): seq<byte> {
    NewLineText(st, dent) + (Print(st, v, dent) + rest)
  }

  /** A line break and a member, and then `rest`. */
  function MemberText(st: Style, m: Member, dent: u16, rest: seq<byte>): seq<byte> {
    NewLineText(st, dent) + (Quoted(m.key) + (ColonText(st) + (Print(st, m.value, dent) + rest)))
  }

  /** Of the whole text `all`, `code` has been written and `rest` is still owed. */
  ghost predicate Owes(all: seq<byte>, code: seq<byte>, rest: seq<byte>) {
    all == code + rest
  }

  lemma Pay(all: seq<byte>, code: seq<byte>, a: seq<byte>, rest: seq<byte>)
    requires Owes(all, code, a + rest)
    ensures Owes(all, code + a, rest)
  {
    Associate(code, a, rest);
  }

  // ----- the generators

  /** The compact and the indenting generator; they differ in what a line break and a separator are. */
  class Generator {
    const style: Style
    var code: seq<byte>
    var dent: u16

    constructor (style: Style)
      ensures code == [] && dent == 0 && this.style == style
    {
      this.style, code, dent := style, [], 0;
    }

    method Write(slice: seq<byte>)
      modifies this`code
      ensures code == old(code) + slice
    {
      code := code + slice;
    }

    method WriteChar(ch: byte)
      modifies this`code
      ensures code == old(code) + [ch]
    {
      code := code + [ch];
    }

    /** Writes a byte that has an entry in the table. */
    method WriteEscape(ch: byte)
      requires NeedsEscape(ch)
      modifies this`code
      ensures code == old(code) + EscapeByte(ch)
    {
      if EscapeLetter(ch) == LOWER_U {
        Write([BACKSLASH, LOWER_U] + Hex4(ch));
      } else {
        Write([BACKSLASH, EscapeLetter(ch)]);
      }
    }

    /** Writes the plain bytes from `start` to `index` and the escape there. */
    method WriteStretch(s: seq<byte>, start: nat, index: nat, ghost base: seq<byte>)
      requires PlainIn(s, start, index) && Written(code, base, s, start) && index < |s| && NeedsEscape(s[index])
      modifies this`code
      ensures Written(code, base, s, index + 1)
    {
      ghost var was := code;
      Write(s[start..index]);
      StretchWritten(was, base, s, start, index);
      was := code;
      WriteEscape(s[index]);
      EscapeWritten(was, base, s, index);
    }

    /** Escapes the rest of a string from the first byte that needs it. */
    method WriteStringComplex(s: seq<byte>, start0: nat, ghost base: seq<byte>)
      requires PlainIn(s, 0, start0) && code == base
      modifies this`code
      ensures code == base + EscapeAll(s)
    {
      Write(s[..start0]);
      StartWritten(base, s, start0);
      var start, index := start0, start0;
      while index < |s|
        invariant start <= index && PlainIn(s, start, index)
        invariant Written(code, base, s, start)
      {
        var ch := s[index];
        if EscapeLetter(ch) > 0 {
          WriteStretch(s, start, index, base);
          start := index + 1;
        }
        index := index + 1;
      }
      StretchWritten(code, base, s, start, |s|);
      Write(s[start..]);
    }

    /**
     Writes `s` from byte `idx0` on in blocks of `width` while at least `least` bytes are left; at a byte
     that needs an escape the string is cut off behind it.
     */
    method WriteBlocks(s0: seq<byte>, idx0: nat, width: nat, least: nat, ghost base: seq<byte>, ghost full: seq<byte>, ghost k0: nat)
      returns (s: seq<byte>, idx: nat, ghost k: nat)
      requires 0 < width <= least && Rebased(code, base, full, k0, s0, idx0)
      modifies this`code
      ensures Rebased(code, base, full, k, s, idx) && |s| - idx < least
    {
      s, idx, k := s0, idx0, k0;
      var len := |s|;
      while len - idx >= least
        invariant len == |s| && Rebased(code, base, full, k, s, idx)
        decreases len - idx
      {
        var quoteBits := Compare(s, idx, width);
        if !IsZero(quoteBits) {
          var quoteDist := TrailingZeros(quoteBits);
          StretchFound(s, idx, quoteBits);
          WriteUpTo(s, idx + quoteDist, base, full, k);
          k := k + (idx + quoteDist + 1);
          s := s[idx + quoteDist + 1..];
          idx := 0;
          len := |s|;
        } else {
          NothingFound(s, idx, quoteBits);
          idx := idx + width;
        }
      }
    }

    /** Writes the plain bytes before position `n` and the escape there. */
    method WriteUpTo(s: seq<byte>, n: nat, ghost base: seq<byte>, ghost full: seq<byte>, ghost k: nat)
      requires n < |s| && Rebased(code, base, full, k, s, n) && NeedsEscape(s[n])
      modifies this`code
      ensures Written(code, base, full, k + (n + 1))
    {
      ghost var was := code;
      Write(s[..n]);
      StretchRebased(was, base, full, k, s, n);
      was := code;
      WriteEscape(s[n]);
      EscapeWritten(was, base, full, k + n);
    }

    /** The mask of the bytes in one block that need an escape. */
    method Compare(s: seq<byte>, idx: nat, width: nat) returns (quoteBits: Mask)
      requires idx + width <= |s|
      ensures |quoteBits| == width && Marks(s, idx, quoteBits)
    {
      var data := s[idx..idx + width];
      quoteBits := QuoteBits(data);
      QuoteBitsExact(data);
      assert forall i :: 0 <= i < width ==> data[i] == s[idx + i];
    }

    /** Writes a string in quotes: 32 bytes at a time, then 16, then one by one. */
    method WriteString(full: seq<byte>)
      modifies this`code
      ensures code == old(code) + Quoted(full)
    {
      ghost var start := code;
      WriteChar(QUOTE);
      ghost var base := code;
      var s, idx := full, 0;
      ghost var k: nat := 0;
      NothingWritten(base, full);
      s, idx, k := WriteBlocks(s, idx, 32, 32, base, full, k);
      s, idx, k := WriteBlocks(s, idx, 16, 17, base, full, k);
      ghost var was := code;
      Write(s[..idx]);
      StretchRebased(was, base, full, k, s, idx);
      k := k + idx;
      s := s[idx..];
      was := code;
      WriteRest(s, was);
      AllWritten(start, was, full, k, s);
    }

    // ----- values

    method WriteMin(slice: seq<byte>, min: byte)
      modifies this`code
      ensures code == old(code) + if style.pretty then slice else [min]
    {
      if style.pretty { Write(slice); } else { WriteChar(min); }
    }

    method NewLine()
      modifies this`code
      ensures code == old(code) + NewLineText(style, dent)
    {
      if style.pretty {
        WriteChar(LINEFEED);
        ghost var base := code;
        var n := dent as int * style.spaces as int % 0x1_0000;
        for i := 0 to n
          invariant code == base + Spaces(i)
        {
          WriteChar(SPACE);
          assert Spaces(i + 1) == Spaces(i) + [SPACE];
        }
      }
    }

    method Indent()
      modifies this`dent
      ensures dent == Deeper(style, old(dent))
    {
      if style.pretty { dent := (dent as int + 1) % 0x1_0000; }
    }

    method Dedent()
      modifies this`dent
      ensures dent == Shallower(style, old(dent))
    {
      if style.pretty { dent := (dent as int + 0xffff) % 0x1_0000; }
    }

    /** A line break, a name and its value, of what is still owed of the whole text. */
    method WriteMember(m: Member, ghost rest: seq<byte>, ghost all: seq<byte>)
      requires Owes(all, code, MemberText(style, m, dent, rest))
      modifies this
      ensures Owes(all, code, rest) && dent == old(dent)
      decreases m, 0
    {
      ghost var text := Print(style, m.value, dent);
      Pay(all, code, NewLineText(style, dent), Quoted(m.key) + (ColonText(style) + (text + rest)));
      NewLine();
      Pay(all, code, Quoted(m.key), ColonText(style) + (text + rest));
      WriteString(m.key);
      Pay(all, code, ColonText(style), text + rest);
      WriteMin([COLON, SPACE], COLON);
      Pay(all, code, text, rest);
      WriteJson(m.value);
    }

    method WriteObject(v: Value)
      requires v.Object?
      modifies this
      ensures code == old(code) + Print(style, v, old(dent)) && dent == old(dent)
      decreases v, 0
    {
      var ms := v.members;
      ghost var all, d := code + Print(style, v, dent), dent;
      if ms == [] {
        WriteChar(LBRACE);
        WriteChar(RBRACE);
        return;
      }
      Pay(all, code, [LBRACE], PrintMembers(style, ms, Deeper(style, dent)));
      WriteChar(LBRACE);
      Indent();
      WriteMember(ms[0], MembersRest(style, ms[1..], dent), all);
      for n := 1 to |ms|
        invariant dent == Deeper(style, d) && Owes(all, code, MembersRest(style, ms[n..], dent))
      {
        assert ms[n..][0] == ms[n] && ms[n..][1..] == ms[n + 1..];
        Pay(all, code, [COMMA], PrintMembers(style, ms[n..], dent));
        WriteChar(COMMA);
        WriteMember(ms[n], MembersRest(style, ms[n + 1..], dent), all);
      }
      assert ms[|ms|..] == [];
      Dedent();
      Pay(all, code, NewLineText(style, dent), [RBRACE]);
      NewLine();
      WriteChar(RBRACE);
    }

    method WriteElement(v: Value, ghost rest: seq<byte>, ghost all: seq<byte>)
      requires Owes(all, code, ElementText(style, v, dent, rest))
      modifies this
      ensures Owes(all, code, rest) && dent == old(dent)
      decreases v, 2
    {
      ghost var text := Print(style, v, dent);
      Pay(all, code, NewLineText(style, dent), text + rest);
      NewLine();
      Pay(all, code, text, rest);
      WriteJson(v);
    }

    method WriteArray(v: Value)
      requires v.Array?
      modifies this
      ensures code == old(code) + Print(style, v, old(dent)) && dent == old(dent)
      decreases v, 0
    {
      var es := v.elems;
      ghost var all, d := code + Print(style, v, dent), dent;
      if es == [] {
        WriteChar(LBRACKET);
        WriteChar(RBRACKET);
        return;
      }
      Pay(all, code, [LBRACKET], PrintElems(style, es, Deeper(style, dent)));
      WriteChar(LBRACKET);
      Indent();
      WriteElement(es[0], ElemsRest(style, es[1..], dent), all);
      for n := 1 to |es|
        invariant dent == Deeper(style, d) && Owes(all, code, ElemsRest(style, es[n..], dent))
      {
        assert es[n..][0] == es[n] && es[n..][1..] == es[n + 1..];
        Pay(all, code, [COMMA], PrintElems(style, es[n..], dent));
        WriteChar(COMMA);
        WriteElement(es[n], ElemsRest(style, es[n + 1..], dent), all);
      }
      assert es[|es|..] == [];
      Dedent();
      Pay(all, code, NewLineText(style, dent), [RBRACKET]);
      NewLine();
      WriteChar(RBRACKET);
    }

    /** Prints a value. */
    method WriteJson(v: Value)
      modifies this
      ensures code == old(code) + Print(style, v, old(dent)) && dent == old(dent)
      decreases v, 1
    {
      match v
      case Null => Write(NULL);
      case String(s) => WriteString(s);
      case I64(i) => Write(Decimal(i));
      case F64(f) => Write(style.formatFloat(f));
      case Bool(b) => if b { Write(TRUE); } else { Write(FALSE); }
      case Array(_) => WriteArray(v);
      case Object(_) => WriteObject(v);
    }

    /** What no block took in, byte by byte, and the closing quote. */
    method WriteRest(s: seq<byte>, ghost base: seq<byte>)
      requires code == base
      modifies this`code
      ensures code == base + EscapeAll(s) + [QUOTE]
    {
      var index := 0;
      while index < |s|
        invariant PlainIn(s, 0, index) && code == base
      {
        if EscapeLetter(s[index]) > 0 {
          WriteStringComplex(s, index, base);
          WriteChar(QUOTE);
          return;
        }
        index := index + 1;
      }
      EscapePlain(s, 0, |s|);
      assert EscapeAll(s) == s;
      Write(s);
      WriteChar(QUOTE);
    }
  }

  /** `s` is what is left of `full` behind its first `k` bytes, which have been written; up to `idx` it is plain. */
  ghost predicate Rebased(code: seq<byte>, base: seq<byte>, full: seq<byte>, k: nat, s: seq<byte>, idx: nat) {
    Written(code, base, full, k) && s == full[k..] && PlainIn(s, 0, idx)
  }

  lemma NothingWritten(base: seq<byte>, full: seq<byte>)
    ensures Rebased(base, base, full, 0, full, 0)
  {}

  /** `bits` marks the bytes from `idx` on that need an escape. */
  ghost predicate Marks(s: seq<byte>, idx: nat, bits: Mask) {
    idx + |bits| <= |s| && forall i :: 0 <= i < |bits| ==> (bits[i] <==> NeedsEscape(s[idx + i]))
  }

  /** The bytes before the first marked one are plain, and the marked one is not. */
  lemma StretchFound(s: seq<byte>, idx: nat, bits: Mask)
    requires PlainIn(s, 0, idx) && Marks(s, idx, bits) && !IsZero(bits)
    ensures var t := TrailingZeros(bits);
            t < |bits| && PlainIn(s, 0, idx + t) && NeedsEscape(s[idx + t])
  {
    forall j | idx <= j < idx + TrailingZeros(bits) ensures !NeedsEscape(s[j]) {
      assert !bits[j - idx];
    }
  }

  lemma NothingFound(s: seq<byte>, idx: nat, bits: Mask)
    requires PlainIn(s, 0, idx) && Marks(s, idx, bits) && IsZero(bits)
    ensures PlainIn(s, 0, idx + |bits|)
  {
    forall j | idx <= j < idx + |bits| ensures !NeedsEscape(s[j]) {
      assert !bits[j - idx];
    }
  }

  lemma StretchRebased(code: seq<byte>, base: seq<byte>, full: seq<byte>, k: nat, s: seq<byte>, n: nat)
    requires Written(code, base, full, k) && s == full[k..] && PlainIn(s, 0, n)
    ensures Written(code + s[..n], base, full, k + n)
  {
    assert s[..n] == full[k..k + n];
    forall j | k <= j < k + n ensures !NeedsEscape(full[j]) { assert s[j - k] == full[j]; }
    StretchWritten(code, base, full, k, k + n);
  }

  lemma AllWritten(start: seq<byte>, code: seq<byte>, full: seq<byte>, k: nat, s: seq<byte>)
    requires Written(code, start + [QUOTE], full, k) && s == full[k..]
    ensures code + EscapeAll(s) + [QUOTE] == start + Quoted(full)
  {
    PiecesRebased(EscapeByte, full, k, |s|);
    var e, rest := EscapeUpTo(full, k), EscapeAll(s);
    assert EscapeAll(full) == e + rest;
    Associate(start + [QUOTE], e, rest);
    Associate(start, [QUOTE], e + rest);
    Associate(start, [QUOTE] + (e + rest), [QUOTE]);
  }

  /** The first `n` bytes of `s` have been written after `base`. */
  ghost predicate Written(code: seq<byte>, base: seq<byte>, s: seq<byte>, n: nat) {
    n <= |s| && code == base + EscapeUpTo(s, n)
  }

  lemma StretchWritten(code: seq<byte>, base: seq<byte>, s: seq<byte>, i: nat, j: nat)
    requires PlainIn(s, i, j) && Written(code, base, s, i)
    ensures Written(code + s[i..j], base, s, j)
  {
    EscapePlain(s, i, j);
    Associate(base, EscapeUpTo(s, i), s[i..j]);
  }

  lemma StartWritten(base: seq<byte>, s: seq<byte>, n: nat)
    requires PlainIn(s, 0, n)
    ensures Written(base + s[..n], base, s, n)
  {
    EscapePlain(s, 0, n);
    assert [] + s[0..n] == s[..n];
  }

  lemma EscapeWritten(code: seq<byte>, base: seq<byte>, s: seq<byte>, i: nat)
    requires i < |s| && Written(code, base, s, i)
    ensures Written(code + EscapeByte(s[i]), base, s, i + 1)
  {
    Associate(base, EscapeUpTo(s, i), EscapeByte(s[i]));
  }
}
