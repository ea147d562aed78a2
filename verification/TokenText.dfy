/** Pieces of printed text as stage 1 sees them: which tokens they hold, and how they leave the scanner. */
module TokenText {
  import opened Bytes
  import opened Scanner
  import opened Strings
  import opened Escapes
  import opened Grammar
  import opened Values
  import G = Generator
  import N = Numbers
  import S2 = Stage2

  /** The document of an input, whether or not stage 1 accepts it. */
  ghost predicate IsDocOf(d: Doc) {
    d.indexes == [0] + Tokens(d.s, |d.s|) && d.k == S2.Kinds(d.s, d.indexes)
  }

  /** Number of the first token at or after position `p`. */
  function No(s: seq<byte>, p: nat): nat
    requires p <= |s|
  {
    1 + |Tokens(s, p)|
  }

  /** No control byte lies in a string before position `p`. */
  ghost predicate ControlFree(s: seq<byte>, p: nat)
    requires p <= |s|
  {
    p == 0 || (ControlFree(s, p - 1) && (InString(s, p) ==> s[p - 1] > 0x1f))
  }

  lemma {:induction false} ControlFreeExact(s: seq<byte>, p: nat)
    requires p <= |s|
    ensures ControlFree(s, p) <==> !HasControlInString(s, p)
  {
    if p > 0 {
      ControlFreeExact(s, p - 1);
      if HasControlInString(s, p - 1) {
        var i :| 0 <= i < p - 1 && InString(s, i + 1) && s[i] <= 0x1f;
        assert HasControlInString(s, p);
      }
    }
  }

  /** Between tokens: no string is open, nothing is escaped, and no control byte was in a string so far. */
  ghost predicate Outside(s: seq<byte>, p: nat) {
    p <= |s| && !InString(s, p) && Run(s, p) == 0 && ControlFree(s, p)
  }

  /** The first `n` bytes of `w` stand at position `p`. */
  ghost predicate TextUpTo(s: seq<byte>, p: nat, w: seq<byte>, n: nat)
    requires n <= |w|
  {
    if n == 0 then p <= |s|
    else TextUpTo(s, p, w, n - 1) && p + n <= |s| && s[p + n - 1] == w[n - 1]
  }

  ghost predicate TextAt(s: seq<byte>, p: nat, w: seq<byte>) {
    TextUpTo(s, p, w, |w|)
  }

  lemma {:induction false} TextBytes(s: seq<byte>, p: nat, w: seq<byte>, n: nat)
    requires n <= |w|
    ensures TextUpTo(s, p, w, n) <==> p + n <= |s| && forall i :: 0 <= i < n ==> s[p + i] == w[i]
  {
    if n > 0 { TextBytes(s, p, w, n - 1); }
  }

  lemma TextSlice(s: seq<byte>, p: nat, w: seq<byte>)
    ensures TextAt(s, p, w) <==> p + |w| <= |s| && s[p..p + |w|] == w
  {
    TextBytes(s, p, w, |w|);
    if p + |w| <= |s| && s[p..p + |w|] == w {
      forall i | 0 <= i < |w| ensures s[p + i] == w[i] { assert s[p..p + |w|][i] == w[i]; }
    }
  }

  lemma TextSplits(s: seq<byte>, p: nat, a: seq<byte>, b: seq<byte>)
    requires TextAt(s, p, a + b)
    ensures TextAt(s, p, a) && TextAt(s, p + |a|, b) && p + |a| + |b| <= |s|
  {
    var w := a + b;
    TextBytes(s, p, w, |w|);
    forall i | 0 <= i < |b| ensures s[p + |a| + i] == b[i] { assert s[p + (|a| + i)] == w[|a| + i]; }
    forall i | 0 <= i < |a| ensures s[p + i] == a[i] { assert s[p + i] == w[i]; }
    TextBytes(s, p, a, |a|);
    TextBytes(s, p + |a|, b, |b|);
  }

  lemma TextByte(s: seq<byte>, p: nat, w: seq<byte>, i: nat)
    requires TextAt(s, p, w) && i < |w|
    ensures p + i < |s| && s[p + i] == w[i]
  {
    TextBytes(s, p, w, |w|);
  }

  lemma {:induction false} TokensGrow(s: seq<byte>, a: nat, b: nat)
    requires a <= b <= |s|
    ensures Tokens(s, a) <= Tokens(s, b)
    decreases b
  {
    if a < b { TokensGrow(s, a, b - 1); }
  }

  /** A token starts at `p`: it has the next number, its position and its class. */
  ghost predicate TokenHere(d: Doc, p: nat, kind: Kind)
    requires p < |d.s|
  {
    && No(d.s, p + 1) == No(d.s, p) + 1 && No(d.s, p) < |d.k| == |d.indexes|
    && d.Pos(No(d.s, p)) == p && d.k[No(d.s, p)] == kind
  }

  lemma TokenIsHere(d: Doc, p: nat)
    requires IsDocOf(d) && p < |d.s| && IsToken(d.s, p)
    ensures TokenHere(d, p, S2.KindAt(d.s, p))
  {
    TokensGrow(d.s, p + 1, |d.s|);
    var t := Tokens(d.s, p + 1);
    assert t[|t| - 1] == p;
    assert Tokens(d.s, |d.s|)[|t| - 1] == p;
  }

  /** One byte outside strings. */
  lemma ByteStep(s: seq<byte>, p: nat)
    requires Outside(s, p) && p < |s| && s[p] != QUOTE && s[p] != BACKSLASH
    ensures Outside(s, p + 1)
    ensures IsToken(s, p) <==> IsStructural(s[p]) || (!IsBlank(s[p]) && Follows(s, p))
    ensures !IsToken(s, p) ==> No(s, p + 1) == No(s, p)
  {
    ControlStep(s, p);
  }

  lemma ControlStep(s: seq<byte>, p: nat)
    requires p < |s| && ControlFree(s, p) && (InString(s, p + 1) ==> s[p] > 0x1f)
    ensures ControlFree(s, p + 1)
  {}

  /** The token class of a structural byte. */
  function KindOf(c: byte): Kind {
    if c == LBRACE then BeginObject
    else if c == RBRACE then EndObject
    else if c == LBRACKET then BeginArray
    else if c == RBRACKET then EndArray
    else if c == COMMA then ValueSeparator
    else NameSeparator
  }

  /** A structural byte is a token, and any token may follow it. */
  lemma StructuralText(d: Doc, p: nat, c: byte)
    requires IsDocOf(d) && Outside(d.s, p) && TextAt(d.s, p, [c]) && IsStructural(c)
    ensures Outside(d.s, p + 1) && Follows(d.s, p + 1) && p < |d.s| && d.s[p] == c && TokenHere(d, p, KindOf(c))
  {
    TextByte(d.s, p, [c], 0);
    ByteStep(d.s, p);
    TokenIsHere(d, p);
  }

  predicate AllBlank(w: seq<byte>) {
    forall i :: 0 <= i < |w| ==> IsBlank(w[i])
  }

  /** Blanks hold no token, and any token may follow them. */
  lemma {:induction false} BlankText(s: seq<byte>, p: nat, w: seq<byte>)
    requires Outside(s, p) && TextAt(s, p, w) && AllBlank(w)
    ensures Outside(s, p + |w|) && No(s, p + |w|) == No(s, p) && (Follows(s, p) || w != [] ==> Follows(s, p + |w|))
    decreases |w|
  {
    if w != [] {
      var n := |w| - 1;
      assert w == w[..n] + [w[n]];
      TextSplits(s, p, w[..n], [w[n]]);
      BlankText(s, p, w[..n]);
      TextByte(s, p, w, n);
      ByteStep(s, p + n);
    }
  }

  /** Bytes of numbers and atoms. */
  predicate IsBare(b: byte) {
    !IsStructural(b) && !IsBlank(b) && b != QUOTE && b != BACKSLASH
  }

  predicate AllBare(w: seq<byte>) {
    forall i :: 0 <= i < |w| ==> IsBare(w[i])
  }

  lemma {:induction false} BareRun(d: Doc, p: nat, q: nat)
    requires IsDocOf(d) && Outside(d.s, p) && Follows(d.s, p) && p < q <= |d.s|
    requires forall i :: p <= i < q ==> IsBare(d.s[i])
    ensures Outside(d.s, q) && TokenHere(d, p, S2.KindAt(d.s, p)) && No(d.s, q) == No(d.s, p) + 1
    decreases q
  {
    if q == p + 1 {
      ByteStep(d.s, p);
      TokenIsHere(d, p);
    } else {
      BareRun(d, p, q - 1);
      BareNext(d.s, q - 1);
    }
  }

  /** A bare word is one token. */
  lemma BareText(d: Doc, p: nat, w: seq<byte>)
    requires IsDocOf(d) && Outside(d.s, p) && TextAt(d.s, p, w) && w != [] && AllBare(w) && Follows(d.s, p)
    ensures p < |d.s| && Outside(d.s, p + |w|) && TokenHere(d, p, S2.KindAt(d.s, p)) && No(d.s, p + |w|) == No(d.s, p) + 1
  {
    forall i | p <= i < p + |w| ensures IsBare(d.s[i]) { TextByte(d.s, p, w, i - p); }
    BareRun(d, p, p + |w|);
  }

  lemma BareNext(s: seq<byte>, q: nat)
    requires Outside(s, q) && 0 < q < |s| && IsBare(s[q - 1]) && IsBare(s[q])
    ensures Outside(s, q + 1) && No(s, q + 1) == No(s, q)
  {
    ByteStep(s, q);
  }

  // ----- strings

  /** Where reading escapes left to right ends, run parity sees the first closing quote. */
  lemma {:induction false} NoQuoteBefore(s: seq<byte>, i: nat)
    requires i <= |s| && !Escaped(s, i) && Unescape(s, i).Some?
    ensures var e := Unescape(s, i).value.end;
            i <= e < |s| && IsQuote(s, e) && forall j :: i <= j < e ==> !IsQuote(s, j)
    decreases |s| - i
  {
    if s[i] == BACKSLASH {
      assert Unescape(s, i) == UnescapeEscape(s, i);
      EscapeStep(s, i);
      NoQuoteBefore(s, i + EscapeAt(s, i).value.len);
    } else if s[i] != QUOTE {
      EscapedStep(s, i);
      NoQuoteBefore(s, i + 1);
    }
  }

  lemma {:induction false} InsideString(s: seq<byte>, p: nat, e: nat, j: nat)
    requires Outside(s, p) && p < j <= e < |s| && s[p] == QUOTE
    requires forall i :: p < i < e ==> !IsQuote(s, i)
    requires forall i :: p < i < e ==> s[i] > 0x1f
    ensures InString(s, j) && No(s, j) == No(s, p) + 1 && ControlFree(s, j)
    decreases j
  {
    if j == p + 1 {
      assert IsQuote(s, p);
    } else {
      InsideString(s, p, e, j - 1);
    }
    ControlStep(s, j - 1);
  }

  /** A string from its opening quote at `p` to its closing one at `e` is one token. */
  lemma QuotedText(d: Doc, p: nat, e: nat)
    requires IsDocOf(d) && Outside(d.s, p) && p < e < |d.s| && d.s[p] == QUOTE
    requires Unescape(d.s, p + 1).Some? && Unescape(d.s, p + 1).value.end == e
    requires forall i :: p < i < e ==> d.s[i] > 0x1f
    ensures Outside(d.s, e + 1) && Follows(d.s, e + 1) && TokenHere(d, p, Str) && No(d.s, e + 1) == No(d.s, p) + 1
  {
    NoQuoteBefore(d.s, p + 1);
    StringOpens(d, p);
    InsideString(d.s, p, e, e);
    StringCloses(d.s, e);
  }

  lemma StringOpens(d: Doc, p: nat)
    requires IsDocOf(d) && Outside(d.s, p) && p < |d.s| && d.s[p] == QUOTE
    ensures TokenHere(d, p, Str)
  {
    assert IsQuote(d.s, p) && InString(d.s, p + 1);
    TokenIsHere(d, p);
  }

  lemma StringCloses(s: seq<byte>, e: nat)
    requires e < |s| && InString(s, e) && IsQuote(s, e) && ControlFree(s, e)
    ensures Outside(s, e + 1) && Follows(s, e + 1) && No(s, e + 1) == No(s, e)
  {
    ControlStep(s, e);
  }

  /** Where byte `n` is written of a string that starts at `p`. */
  function Place(f: byte -> seq<byte>, p: nat, str: seq<byte>, n: nat): nat
    requires n <= |str|
  {
    p + |G.Pieces(f, str, n)|
  }

  /** The pieces of the first `n` bytes stand one behind the other. */
  ghost predicate Stand(f: byte -> seq<byte>, s: seq<byte>, p: nat, str: seq<byte>, n: nat)
    requires n <= |str|
  {
    n == 0 || (Stand(f, s, p, str, n - 1) && TextAt(s, Place(f, p, str, n - 1), f(str[n - 1])))
  }

  lemma {:induction false} PiecesStand(f: byte -> seq<byte>, s: seq<byte>, p: nat, str: seq<byte>, n: nat)
    requires n <= |str| && TextAt(s, p, G.Pieces(f, str, n))
    ensures Stand(f, s, p, str, n)
  {
    if n > 0 {
      TextSplits(s, p, G.Pieces(f, str, n - 1), f(str[n - 1]));
      PiecesStand(f, s, p, str, n - 1);
    }
  }

  lemma {:induction false} PieceStands(f: byte -> seq<byte>, s: seq<byte>, p: nat, str: seq<byte>, m: nat, n: nat)
    requires n < m <= |str| && Stand(f, s, p, str, m)
    ensures TextAt(s, Place(f, p, str, n), f(str[n]))
    ensures Place(f, p, str, n + 1) == Place(f, p, str, n) + |f(str[n])|
  {
    if n < m - 1 { PieceStands(f, s, p, str, m - 1, n); }
  }

  /** What `f` writes for a byte is read as that byte. */
  ghost predicate ReadsBack(f: byte -> seq<byte>, s: seq<byte>) {
    forall b: byte, i: nat {:trigger TextAt(s, i, f(b))} :: TextAt(s, i, f(b)) ==>
      Unescape(s, i) == Prepend([b], Unescape(s, i + |f(b)|))
  }

  /** Reading the pieces of a string gives the string back. */
  lemma {:induction false} PiecesReadBack(f: byte -> seq<byte>, s: seq<byte>, p: nat, e: nat, str: seq<byte>, n: nat, i: nat)
    requires ReadsBack(f, s) && n <= |str| && Stand(f, s, p, str, |str|)
    requires e == Place(f, p, str, |str|) < |s| && s[e] == QUOTE && i == Place(f, p, str, n)
    ensures Unescape(s, i) == Some(Unescaped(str[n..], e))
    decreases |str| - n
  {
    if n < |str| {
      var next := Place(f, p, str, n + 1);
      PieceStands(f, s, p, str, |str|, n);
      PiecesReadBack(f, s, p, e, str, n + 1, next);
      PieceReadsBack(f, s, i, str, n, next, e);
    } else {
      EndReadsBack(s, e, str);
    }
  }

  lemma EndReadsBack(s: seq<byte>, e: nat, str: seq<byte>)
    requires e < |s| && s[e] == QUOTE
    ensures Unescape(s, e) == Some(Unescaped(str[|str|..], e))
  {
    assert str[|str|..] == [];
  }

  lemma PieceReadsBack(f: byte -> seq<byte>, s: seq<byte>, i: nat, str: seq<byte>, n: nat, next: nat, e: nat)
    requires ReadsBack(f, s) && n < |str| && TextAt(s, i, f(str[n])) && next == i + |f(str[n])|
    requires Unescape(s, next) == Some(Unescaped(str[n + 1..], e))
    ensures Unescape(s, i) == Some(Unescaped(str[n..], e))
  {
    assert [str[n]] + str[n + 1..] == str[n..];
  }

  /** An escape written for `b` is read as `b`. */
  lemma EscapeReadsBack(s: seq<byte>, i: nat, b: byte)
    requires TextAt(s, i, G.EscapeByte(b))
    ensures i < |s|
    ensures Unescape(s, i) == Prepend([b], Unescape(s, i + |G.EscapeByte(b)|))
  {
    TextByte(s, i, G.EscapeByte(b), 0);
    if G.EscapeLetter(b) != 0 {
      TextByte(s, i, G.EscapeByte(b), 1);
      assert Unescape(s, i) == UnescapeEscape(s, i);
      if G.EscapeLetter(b) == LOWER_U {
        HexReadsBack(s, i, b);
      } else {
        assert EscapeMap(G.EscapeLetter(b)) == b;
      }
    }
  }

  lemma HexDigitReads(n: nat)
    requires n < 16
    ensures DigitToVal(G.HexDigit(n)) == n
  {}

  /** The byte has a two-character escape in section 7 of RFC 8259, other than that of the slash. */
  predicate HasLetter(b: byte, c: byte) {
    c != SLASH && RfcLetter(c) == Some(b)
  }

  /**
   How a byte is written: by the letter of the standard if it has one, else in six characters with lower-case
   digits if it is a control byte, else as it is.
   */
  lemma EscapeForms(b: byte)
    ensures forall c: byte :: HasLetter(b, c) ==> G.EscapeByte(b) == [BACKSLASH, c]
    ensures (forall c: byte :: !HasLetter(b, c)) && b < 0x20 ==>
              G.EscapeByte(b) == Latin("\\u00") + [HexChar(b / 16, false), HexChar(b % 16, false)]
    ensures (forall c: byte :: !HasLetter(b, c)) && b >= 0x20 ==> G.EscapeByte(b) == [b]
  {
    if b < 0x20 {
      HexCharWritten(b / 16);
      HexCharWritten(b % 16);
      HexCharWritten(0);
      assert Latin("\\u00") == [BACKSLASH, LOWER_U, ZERO, ZERO];
    }
    assert HasLetter(b, LOWER_B) <==> b == 0x08;
    assert HasLetter(b, LOWER_F) <==> b == 0x0c;
    assert HasLetter(b, LOWER_N) <==> b == 0x0a;
    assert HasLetter(b, LOWER_R) <==> b == 0x0d;
    assert HasLetter(b, LOWER_T) <==> b == 0x09;
    assert HasLetter(b, QUOTE) <==> b == QUOTE;
    assert HasLetter(b, BACKSLASH) <==> b == BACKSLASH;
  }

  lemma HexCharWritten(n: nat)
    requires n < 16
    ensures G.HexDigit(n) == HexChar(n, false)
  {
    HexDigitReads(n);
    DigitSpelled(G.HexDigit(n), n);
    DigitSpelled(HexChar(n, true), n);
  }

  lemma HexReadsBack(s: seq<byte>, i: nat, b: byte)
    requires TextAt(s, i, [BACKSLASH, LOWER_U] + G.Hex4(b)) && b < 0x20
    ensures At(s, i + 1) == LOWER_U && EscapeAt(s, i) == Some(Escape([b], 6))
  {
    var w := [BACKSLASH, LOWER_U] + G.Hex4(b);
    TextByte(s, i, w, 1);
    TextByte(s, i, w, 2);
    TextByte(s, i, w, 3);
    TextByte(s, i, w, 4);
    TextByte(s, i, w, 5);
    HexDigitReads(0);
    HexDigitReads(b / 16);
    HexDigitReads(b % 16);
    assert HexValue(s, i + 2) == b;
  }

  lemma EscapesReadBack(s: seq<byte>)
    ensures ReadsBack(G.EscapeByte, s)
  {
    forall b: byte, i: nat | TextAt(s, i, G.EscapeByte(b))
      ensures Unescape(s, i) == Prepend([b], Unescape(s, i + |G.EscapeByte(b)|))
    {
      EscapeReadsBack(s, i, b);
    }
  }

  lemma StringReadsBack(s: seq<byte>, p: nat, str: seq<byte>)
    requires TextAt(s, p, G.Quoted(str))
    ensures var e := p + 1 + |G.EscapeAll(str)|;
            e < |s| && s[p] == QUOTE && Unescape(s, p + 1) == Some(Unescaped(str, e)) && forall i :: p < i < e ==> s[i] > 0x1f
  {
    var body := G.EscapeAll(str);
    var e := p + 1 + |body|;
    QuotedParts(str);
    TextSplits(s, p, [QUOTE], body + [QUOTE]);
    TextSplits(s, p + 1, body, [QUOTE]);
    TextByte(s, p, [QUOTE], 0);
    TextByte(s, e, [QUOTE], 0);
    BodyReadsBack(s, p + 1, e, str);
  }

  lemma BodyReadsBack(s: seq<byte>, p: nat, e: nat, str: seq<byte>)
    requires TextAt(s, p, G.EscapeAll(str)) && e == p + |G.EscapeAll(str)| < |s| && s[e] == QUOTE
    ensures Unescape(s, p) == Some(Unescaped(str, e)) && forall i :: p <= i < e ==> s[i] > 0x1f
  {
    EscapesReadBack(s);
    PiecesStand(G.EscapeByte, s, p, str, |str|);
    PiecesReadBack(G.EscapeByte, s, p, e, str, 0, p);
    assert str[0..] == str;
    NoControlAt(s, p, str);
  }

  lemma NoControlAt(s: seq<byte>, p: nat, str: seq<byte>)
    requires TextAt(s, p, G.EscapeAll(str))
    ensures forall i :: p <= i < p + |G.EscapeAll(str)| ==> s[i] > 0x1f
  {
    forall i | p <= i < p + |G.EscapeAll(str)| ensures s[i] > 0x1f {
      TextByte(s, p, G.EscapeAll(str), i - p);
      G.NoControlWritten(str, |str|, i - p);
    }
  }

  lemma QuotedParts(str: seq<byte>)
    ensures G.Quoted(str) == [QUOTE] + (G.EscapeAll(str) + [QUOTE])
  {}

  /** A written string is one token, and is read back. */
  lemma StringText(d: Doc, p: nat, str: seq<byte>)
    requires IsDocOf(d) && Outside(d.s, p) && TextAt(d.s, p, G.Quoted(str))
    ensures var q := p + |G.Quoted(str)|;
            Outside(d.s, q) && Follows(d.s, q) && No(d.s, q) == No(d.s, p) + 1
    ensures p < |d.s| && TokenHere(d, p, Str) && StringOf(d.s, p) == Some(str)
  {
    StringReadsBack(d.s, p, str);
    QuotedText(d, p, p + 1 + |G.EscapeAll(str)|);
  }

  // ----- atoms

  lemma AtomText(d: Doc, p: nat, w: seq<byte>)
    requires IsDocOf(d) && Outside(d.s, p) && Follows(d.s, p) && TextAt(d.s, p, w)
    requires w == TRUE || w == FALSE || w == NULL
    requires IsTerminator(At(d.s, p + |w|))
    ensures Outside(d.s, p + |w|) && No(d.s, p + |w|) == No(d.s, p) + 1
    ensures p < |d.s| && TokenHere(d, p, Prim) && d.s[p] == w[0]
  {
    BareText(d, p, w);
    forall j | 0 <= j < |w| ensures At(d.s, p + j) == w[j] { TextByte(d.s, p, w, j); }
    assert S2.Spelled(d.s, p, w);
    assert At(d.s, p + 0) == w[0];
  }

  // ----- integers

  lemma {:induction false} DigitsAreInt(n: nat)
    ensures N.IsInt(G.Digits(n)) && (G.Digits(n)[0] == ZERO <==> n == 0) && |G.Digits(n)| >= 1
    ensures forall i :: 0 <= i < |G.Digits(n)| ==> IsDigit(G.Digits(n)[i])
  {
    if n >= 10 { DigitsAreInt(n / 10); }
  }

  lemma {:induction false} DigitsReadBack(s: seq<byte>, p: nat, n: nat)
    requires TextAt(s, p, G.Digits(n))
    ensures N.Extend(0, s, p, p + |G.Digits(n)|) == n
    decreases n
  {
    var w := G.Digits(n);
    TextByte(s, p, w, |w| - 1);
    if n >= 10 {
      TextSplits(s, p, G.Digits(n / 10), [ZERO + n % 10]);
      DigitsReadBack(s, p, n / 10);
    } else {
      assert N.Extend(0, s, p, p) == 0;
    }
  }

  /** An integer is written in the digits of its absolute value, without leading zeros, behind its sign. */
  lemma DecimalExact(i: int)
    ensures var w, start := G.Decimal(i), if i < 0 then 1 else 0;
            && |w| > start && N.IsInt(w[start..]) && (i < 0 ==> w[0] == MINUS)
            && N.Extend(0, w, start, |w|) == if i < 0 then -i else i
  {
    var n := if i < 0 then -i else i;
    var w, start := G.Decimal(i), if i < 0 then 1 else 0;
    DigitsAreInt(n);
    assert w[start..] == G.Digits(n) && w[start..][..|w| - start] == G.Digits(n);
    TextBytes(w, start, G.Digits(n), |G.Digits(n)|);
    DigitsReadBack(w, start, n);
  }

  /** A written integer is accepted and read back if it fits 64 bits. */
  lemma IntegerReadsBack(buf: seq<byte>, i: int)
    requires -N.I64_SIZE <= i < N.I64_SIZE && TextAt(buf, 0, G.Decimal(i)) && IsTerminator(At(buf, |G.Decimal(i)|))
    ensures NumberOf(buf, i < 0) == Some(I64(i))
  {
    var p, n, e := if i < 0 then 1 else 0, if i < 0 then -i else i, |G.Decimal(i)|;
    if i < 0 { TextSplits(buf, 0, [MINUS], G.Digits(n)); }
    var w := G.Digits(n);
    TextSlice(buf, p, w);
    DigitsAreInt(n);
    assert w[..|w|] == w && w[|w|..|w|] == [] && w[|w|..] == [];
    assert N.Splits(w, |w|, |w|);
    N.PartsAreRead(buf, p, e, e, e);
    DigitsReadBack(buf, p, n);
    N.PlainIntegerExact(buf, p, i < 0, N.Literal(e, e, e));
  }

  lemma IntegerText(d: Doc, p: nat, i: int)
    requires IsDocOf(d) && Outside(d.s, p) && Follows(d.s, p) && TextAt(d.s, p, G.Decimal(i))
    requires -N.I64_SIZE <= i < N.I64_SIZE && IsTerminator(At(d.s, p + |G.Decimal(i)|))
    ensures var q := p + |G.Decimal(i)|;
            Outside(d.s, q) && No(d.s, q) == No(d.s, p) + 1
    ensures p < |d.s| && TokenHere(d, p, Prim) && ScalarOf(d.s, p) == Some(I64(i))
  {
    DecimalBytes(i);
    BareText(d, p, G.Decimal(i));
    IntegerScalar(d.s, p, i);
  }

  lemma IntegerScalar(s: seq<byte>, p: nat, i: int)
    requires TextAt(s, p, G.Decimal(i))
    requires -N.I64_SIZE <= i < N.I64_SIZE && IsTerminator(At(s, p + |G.Decimal(i)|))
    ensures S2.KindAt(s, p) == Prim && ScalarOf(s, p) == Some(I64(i))
  {
    var w := G.Decimal(i);
    DecimalBytes(i);
    TextByte(s, p, w, 0);
    var buf := s[p..];
    TextSlice(s, p, w);
    assert buf[0..|w|] == s[p..p + |w|];
    TextSlice(buf, 0, w);
    assert At(buf, |w|) == At(s, p + |w|);
    IntegerReadsBack(buf, i);
  }

  // ----- floats

  /** The text of a number is a number the parser reads as `v`. */
  predicate IsNumberText(w: seq<byte>, v: Value) {
    w != [] && AllBare(w) && (w[0] == MINUS || IsDigit(w[0])) && NumberOf(w, w[0] == MINUS) == Some(v)
  }

  /** Such a text is one token and is read back wherever a terminator follows it. */
  lemma NumberStands(d: Doc, p: nat, w: seq<byte>, v: Value)
    requires IsDocOf(d) && Outside(d.s, p) && Follows(d.s, p) && TextAt(d.s, p, w)
    requires IsNumberText(w, v) && IsTerminator(At(d.s, p + |w|))
    ensures var q := p + |w|; Outside(d.s, q) && No(d.s, q) == No(d.s, p) + 1
    ensures p < |d.s| && TokenHere(d, p, Prim) && ScalarOf(d.s, p) == Some(v)
  {
    BareText(d, p, w);
    NumberScalar(d.s, p, w, v);
  }

  lemma NumberScalar(s: seq<byte>, p: nat, w: seq<byte>, v: Value)
    requires TextAt(s, p, w) && IsNumberText(w, v) && IsTerminator(At(s, p + |w|))
    ensures S2.KindAt(s, p) == Prim && ScalarOf(s, p) == Some(v)
  {
    var buf := s[p..];
    TextByte(s, p, w, 0);
    TextSlice(s, p, w);
    assert buf[..|w|] == w && At(buf, |w|) == At(s, p + |w|);
    NumberInText(buf, w, v);
  }

  lemma NumberInText(buf: seq<byte>, w: seq<byte>, v: Value)
    requires IsNumberText(w, v) && |w| <= |buf| && buf[..|w|] == w && IsTerminator(At(buf, |w|))
    ensures NumberOf(buf, buf[0] == MINUS) == Some(v)
  {
    var p := if w[0] == MINUS then 1 else 0;
    N.LiteralReads(w, p);
    var e := N.LiteralAt(w, p).value.end;
    assert buf[0] == w[0];
    assert w[..e] == buf[..e];
    assert e < |w| ==> At(buf, e) == At(w, e);
    N.LiteralSame(w, buf, p, w[0] == MINUS);
  }

  lemma DecimalBytes(i: int)
    ensures var w := G.Decimal(i);
            w != [] && AllBare(w) && (w[0] == MINUS <==> i < 0) && (i >= 0 ==> IsDigit(w[0]))
  {
    DigitsAreInt(if i < 0 then -i else i);
  }
}
