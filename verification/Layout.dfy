/** How printed text is laid out: where line breaks and spaces stand, and how many of them. */
module Layout {
  import opened Bytes
  import opened Scanner
  import opened Values
  import opened Strings
  import opened TokenText
  import opened JsonText
  import opened G = Generator

  predicate IsOpen(b: byte) {
    b == LBRACKET || b == LBRACE
  }

  predicate IsClose(b: byte) {
    b == RBRACKET || b == RBRACE
  }

  /** Brackets opened in the first `n` bytes minus brackets closed there, not counting those in strings. */
  function Depth(s: seq<byte>, n: nat): int
    requires n <= |s|
  {
    if n == 0 then 0
    else Depth(s, n - 1)
         + if InString(s, n) then 0 else if IsOpen(s[n - 1]) then 1 else if IsClose(s[n - 1]) then -1 else 0
  }

  /** Spaces in front of what stands at a depth; depth and product are 16-bit. */
  function Indentation(spaces: nat, depth: int): nat {
    depth % 0x1_0000 * spaces % 0x1_0000
  }

  /** While the product fits 16 bits it is the product. */
  lemma IndentationExact(spaces: nat, depth: nat)
    requires depth * spaces < 0x1_0000
    ensures Indentation(spaces, depth) == depth * spaces
  {
    if spaces > 0 {
      AtLeast(depth, spaces);
      assert depth % 0x1_0000 == depth;
    } else {
      assert Indentation(0, depth) == 0;
    }
  }

  lemma AtLeast(depth: nat, spaces: nat)
    requires spaces > 0
    ensures depth <= depth * spaces
  {}

  /**
   What stands between two bytes of a text outside strings. In the indenting style a line break behind an opening
   bracket, behind a comma and before a closing bracket, unless the brackets have nothing between them, and a
   space behind a colon. Nothing anywhere else, and nothing at all in the compact style.
   */
  function GapText(st: Style, before: byte, next: byte, depth: int): seq<byte> {
    if !st.pretty || (IsOpen(before) && IsClose(next)) then []
    else if before == COLON then [SPACE]
    else if IsOpen(before) || before == COMMA || IsClose(next) then [LINEFEED] + Spaces(Indentation(st.spaces, depth))
    else []
  }

  /** The depth in front of byte `q`, of which nothing but blanks separates byte `b`; a closing bracket counts as closed. */
  function DepthBetween(s: seq<byte>, b: nat, q: nat): int
    requires b < q < |s|
  {
    Depth(s, b + 1) - if IsClose(s[q]) then 1 else 0
  }

  /** Behind byte `b` stands what has to stand before the next one, and a line break never at a negative depth. */
  predicate LaidAt(st: Style, s: seq<byte>, b: nat)
    requires b < |s|
  {
    var q := Skip(s, b + 1);
    if q == |s| then q == b + 1
    else
      s[b + 1..q] == GapText(st, s[b], s[q], DepthBetween(s, b, q)) && (s[b + 1] == LINEFEED ==> DepthBetween(s, b, q) >= 0)
  }

  /** So it is behind byte `b`, if that is outside strings and no blank. */
  predicate LaidBehind(st: Style, s: seq<byte>, b: nat)
    requires b < |s|
  {
    !IsBlank(s[b]) && !InString(s, b + 1) ==> LaidAt(st, s, b)
  }

  predicate Laid(st: Style, s: seq<byte>, p: nat, q: nat) {
    q <= |s| && forall b :: p <= b < q ==> LaidBehind(st, s, b)
  }

  // ----- bytes

  lemma {:induction false} SkipOver(s: seq<byte>, p: nat, w: seq<byte>, n: nat)
    requires n <= |w| && TextAt(s, p, w) && AllBlank(w) && p + |w| < |s| && !IsBlank(s[p + |w|])
    ensures Skip(s, p + n) == p + |w|
    decreases |w| - n
  {
    if n < |w| {
      TextByte(s, p, w, n);
      SkipOver(s, p, w, n + 1);
    }
  }

  lemma GapAt(st: Style, s: seq<byte>, b: nat, w: seq<byte>)
    requires TextAt(s, b + 1, w) && AllBlank(w) && b + 1 + |w| < |s| && !IsBlank(s[b + 1 + |w|])
    requires var q := b + 1 + |w|; w == GapText(st, s[b], s[q], DepthBetween(s, b, q))
    requires w != [] && w[0] == LINEFEED ==> DepthBetween(s, b, b + 1 + |w|) >= 0
    ensures LaidAt(st, s, b)
  {
    SkipOver(s, b + 1, w, 0);
    TextSlice(s, b + 1, w);
    if w != [] { TextByte(s, b + 1, w, 0); }
  }

  /** No bracket outside strings lies in `[p..q)`. */
  ghost predicate Flat(s: seq<byte>, p: nat, q: nat) {
    p <= q <= |s| && forall j :: p <= j < q ==> InString(s, j + 1) || (!IsOpen(s[j]) && !IsClose(s[j]))
  }

  lemma {:induction false} DepthFlat(s: seq<byte>, p: nat, q: nat)
    requires Flat(s, p, q)
    ensures Depth(s, q) == Depth(s, p)
    decreases q
  {
    if p < q { DepthFlat(s, p, q - 1); }
  }

  lemma BlankFlat(s: seq<byte>, p: nat, w: seq<byte>)
    requires TextAt(s, p, w) && AllBlank(w)
    ensures Depth(s, p + |w|) == Depth(s, p) && p + |w| <= |s|
  {
    TextSlice(s, p, w);
    forall j | p <= j < p + |w| ensures IsBlank(s[j]) { TextByte(s, p, w, j - p); }
    DepthFlat(s, p, p + |w|);
  }

  lemma BlankLaid(st: Style, s: seq<byte>, p: nat, w: seq<byte>)
    requires TextAt(s, p, w) && AllBlank(w)
    ensures Laid(st, s, p, p + |w|)
  {
    forall j | p <= j < p + |w| && j < |s| ensures IsBlank(s[j]) { TextByte(s, p, w, j - p); }
  }

  // ----- values

  predicate StartsValue(b: byte) {
    !IsBlank(b) && !IsClose(b) && b != COMMA && b != COLON
  }

  predicate EndsValue(b: byte) {
    !IsBlank(b) && !IsOpen(b) && b != COMMA && b != COLON
  }

  /** The text from `p` to `q` is a value, laid out up to its last byte. */
  ghost predicate ValueLaid(st: Style, s: seq<byte>, p: nat, q: nat) {
    && p < q <= |s| && Outside(s, q) && Depth(s, q) == Depth(s, p)
    && StartsValue(s[p]) && EndsValue(s[q - 1]) && Laid(st, s, p, q - 1)
  }

  /** Floats are printed in digits, letters and signs. */
  ghost predicate PlainFloats(st: Style) {
    forall f {:trigger st.formatFloat(f)} :: st.formatFloat(f) != [] && AllBare(st.formatFloat(f))
  }

  lemma {:induction false} BareOutside(s: seq<byte>, p: nat, q: nat)
    requires Outside(s, p) && p <= q <= |s| && forall j :: p <= j < q ==> IsBare(s[j])
    ensures Outside(s, q)
    decreases q
  {
    if p < q {
      BareOutside(s, p, q - 1);
      ByteStep(s, q - 1);
    }
  }

  lemma BareLaid(st: Style, s: seq<byte>, p: nat, w: seq<byte>)
    requires Outside(s, p) && TextAt(s, p, w) && w != [] && AllBare(w)
    ensures ValueLaid(st, s, p, p + |w|)
  {
    var q := p + |w|;
    TextSlice(s, p, w);
    forall j | p <= j < q ensures IsBare(s[j]) { TextByte(s, p, w, j - p); }
    BareOutside(s, p, q);
    DepthFlat(s, p, q);
    forall b | p <= b < q - 1 ensures LaidBehind(st, s, b) { assert s[b + 1..b + 1] == []; }
  }

  lemma StringLaid(st: Style, s: seq<byte>, p: nat, str: seq<byte>)
    requires Outside(s, p) && TextAt(s, p, Quoted(str))
    ensures ValueLaid(st, s, p, p + |Quoted(str)|) && s[p] == QUOTE && s[p + |Quoted(str)| - 1] == QUOTE
  {
    var e := p + 1 + |EscapeAll(str)|;
    StringReadsBack(s, p, str);
    NoQuoteBefore(s, p + 1);
    forall j | p < j <= e ensures InString(s, j) { InsideString(s, p, e, j); }
    InsideString(s, p, e, e);
    StringCloses(s, e);
    DepthFlat(s, p, e + 1);
  }

  // ----- line breaks

  /** The depth the indenting generator counts is that of the text. */
  predicate Dented(st: Style, dent: u16, depth: int) {
    depth >= 0 && (st.pretty ==> dent == depth % 0x1_0000)
  }

  lemma DentedDeeper(st: Style, dent: u16, depth: int)
    requires Dented(st, dent, depth)
    ensures Dented(st, Deeper(st, dent), depth + 1)
  {}

  lemma DentedShallower(st: Style, dent: u16, depth: int)
    requires Dented(st, dent, depth) && depth > 0
    ensures Dented(st, Shallower(st, dent), depth - 1)
  {}

  lemma NewLineBlanks(st: Style, dent: u16, depth: int)
    requires Dented(st, dent, depth)
    ensures AllBlank(NewLineText(st, dent))
    ensures NewLineText(st, dent) == if st.pretty then [LINEFEED] + Spaces(Indentation(st.spaces, depth)) else []
  {}

  /** A line break between byte `p - 1` and what stands behind it. */
  lemma BreakLaid(st: Style, dent: u16, s: seq<byte>, p: nat, rest: seq<byte>, depth: int)
    requires 0 < p && Outside(s, p) && TextAt(s, p, NewLineText(st, dent) + rest) && rest != [] && !IsBlank(rest[0])
    requires !IsBlank(s[p - 1]) && Dented(st, dent, depth) && depth == Depth(s, p) - if IsClose(rest[0]) then 1 else 0
    requires (IsOpen(s[p - 1]) && !IsClose(rest[0])) || s[p - 1] == COMMA || (IsClose(rest[0]) && EndsValue(s[p - 1]))
    ensures var q := p + |NewLineText(st, dent)|;
            Outside(s, q) && TextAt(s, q, rest) && Depth(s, q) == Depth(s, p) && Laid(st, s, p - 1, q)
  {
    var w := NewLineText(st, dent);
    NewLineBlanks(st, dent, depth);
    BlanksPassed(st, s, p, w, rest);
    BreakGap(st, s[p - 1], rest[0], depth);
    assert DepthBetween(s, p - 1, p + |w|) == depth;
    GapAt(st, s, p - 1, w);
  }

  lemma BreakGap(st: Style, before: byte, next: byte, depth: int)
    requires (IsOpen(before) && !IsClose(next)) || before == COMMA || (IsClose(next) && EndsValue(before))
    ensures GapText(st, before, next, depth) == if st.pretty then [LINEFEED] + Spaces(Indentation(st.spaces, depth)) else []
  {}

  /** Blanks change nothing. */
  lemma BlanksPassed(st: Style, s: seq<byte>, p: nat, w: seq<byte>, rest: seq<byte>)
    requires Outside(s, p) && TextAt(s, p, w + rest) && AllBlank(w) && rest != []
    ensures var q := p + |w|;
            && Outside(s, q) && TextAt(s, p, w) && TextAt(s, q, rest) && q < |s| && s[q] == rest[0]
            && Depth(s, q) == Depth(s, p) && Laid(st, s, p, q)
  {
    TextSplits(s, p, w, rest);
    TextByte(s, p + |w|, rest, 0);
    BlankText(s, p, w);
    BlankFlat(s, p, w);
    BlankLaid(st, s, p, w);
  }

  /** Nothing stands between byte `p - 1` and what stands behind it. */
  lemma NothingLaid(st: Style, s: seq<byte>, p: nat)
    requires 0 < p < |s| && !IsBlank(s[p]) && !IsOpen(s[p - 1]) && s[p - 1] != COMMA && !IsClose(s[p])
    requires s[p - 1] != COLON || !st.pretty
    ensures LaidAt(st, s, p - 1)
  {
    GapAt(st, s, p - 1, []);
  }

  lemma ByteOutside(s: seq<byte>, p: nat, c: byte)
    requires Outside(s, p) && TextAt(s, p, [c]) && IsStructural(c)
    ensures p < |s| && s[p] == c && Outside(s, p + 1)
    ensures Depth(s, p + 1) == Depth(s, p) + if IsOpen(c) then 1 else if IsClose(c) then -1 else 0
  {
    TextByte(s, p, [c], 0);
    ByteStep(s, p);
  }

  lemma StructuralPassed(s: seq<byte>, p: nat, c: byte, rest: seq<byte>)
    requires Outside(s, p) && TextAt(s, p, [c] + rest) && IsStructural(c)
    ensures p < |s| && s[p] == c && Outside(s, p + 1) && TextAt(s, p + 1, rest)
    ensures Depth(s, p + 1) == Depth(s, p) + if IsOpen(c) then 1 else if IsClose(c) then -1 else 0
  {
    TextSplits(s, p, [c], rest);
    ByteOutside(s, p, c);
  }

  /** A bracket with nothing in it. */
  lemma EmptyLaid(st: Style, open: byte, close: byte, s: seq<byte>, p: nat)
    requires TextAt(s, p, [open] + [close]) && Outside(s, p)
    requires (open == LBRACKET && close == RBRACKET) || (open == LBRACE && close == RBRACE)
    ensures ValueLaid(st, s, p, p + 2)
  {
    TextSplits(s, p, [open], [close]);
    ByteOutside(s, p, open);
    ByteOutside(s, p + 1, close);
    GapAt(st, s, p, []);
  }

  lemma ScalarLaid(st: Style, v: Value, s: seq<byte>, p: nat)
    requires PlainFloats(st) && !v.Array? && !v.Object? && TextAt(s, p, PrintScalar(st, v)) && Outside(s, p)
    ensures ValueLaid(st, s, p, p + |PrintScalar(st, v)|)
  {
    var w := PrintScalar(st, v);
    match v
    case String(str) => StringLaid(st, s, p, str);
    case I64(i) =>
      DecimalBytes(i);
      BareLaid(st, s, p, w);
    case _ => BareLaid(st, s, p, w);
  }

  /** A name with its colon, and the space behind it in the indenting style. */
  lemma NameLaid(st: Style, key: seq<byte>, s: seq<byte>, p: nat, rest: seq<byte>)
    requires Outside(s, p) && TextAt(s, p, Quoted(key) + (ColonText(st) + rest)) && rest != [] && StartsValue(rest[0])
    ensures var q := p + |Quoted(key)| + |ColonText(st)|;
            Outside(s, q) && TextAt(s, q, rest) && Depth(s, q) == Depth(s, p) && Laid(st, s, p, q)
  {
    var c := p + |Quoted(key)|;
    TextSplits(s, p, Quoted(key), ColonText(st) + rest);
    StringLaid(st, s, p, key);
    ColonLaid(st, s, c, rest);
  }

  lemma ColonLaid(st: Style, s: seq<byte>, c: nat, rest: seq<byte>)
    requires 0 < c && Outside(s, c) && s[c - 1] == QUOTE && TextAt(s, c, ColonText(st) + rest)
    requires rest != [] && StartsValue(rest[0])
    ensures var q := c + |ColonText(st)|;
            Outside(s, q) && TextAt(s, q, rest) && Depth(s, q) == Depth(s, c) && Laid(st, s, c - 1, q)
  {
    var blank: seq<byte> := if st.pretty then [SPACE] else [];
    assert ColonText(st) + rest == [COLON] + (blank + rest);
    StructuralPassed(s, c, COLON, blank + rest);
    BlanksPassed(st, s, c + 1, blank, rest);
    NothingLaid(st, s, c);
    GapAt(st, s, c, blank);
  }

  /** A line break and a name with its colon. */
  lemma HeadLaid(st: Style, key: seq<byte>, dent: u16, s: seq<byte>, p: nat, rest: seq<byte>) returns (q: nat)
    requires TextAt(s, p, NewLineText(st, dent) + (Quoted(key) + (ColonText(st) + rest))) && Outside(s, p)
    requires 0 < p && (s[p - 1] == LBRACE || s[p - 1] == COMMA) && Dented(st, dent, Depth(s, p))
    requires rest != [] && StartsValue(rest[0])
    ensures q == p + |NewLineText(st, dent)| + |Quoted(key)| + |ColonText(st)| && Outside(s, q)
    ensures TextAt(s, q, rest) && Depth(s, q) == Depth(s, p) && Laid(st, s, p - 1, q)
  {
    var p1 := p + |NewLineText(st, dent)|;
    q := p1 + |Quoted(key)| + |ColonText(st)|;
    BreakLaid(st, dent, s, p, Quoted(key) + (ColonText(st) + rest), Depth(s, p));
    NameLaid(st, key, s, p1, rest);
  }

  // ----- the text by position

  /** What is known of the text at every position: outside strings, how deep, and laid out behind. */
  datatype Chart = Chart(out: seq<bool>, depth: seq<int>, laid: seq<bool>)

  ghost predicate Charts(st: Style, s: seq<byte>, m: Chart) {
    && |m.out| == |m.depth| == |s| + 1 && |m.laid| == |s|
    && (forall p {:trigger Outside(s, p)} :: 0 <= p <= |s| ==> m.out[p] == Outside(s, p))
    && (forall p {:trigger Depth(s, p)} :: 0 <= p <= |s| ==> m.depth[p] == Depth(s, p))
    && (forall b {:trigger LaidBehind(st, s, b)} :: 0 <= b < |s| ==> m.laid[b] == LaidBehind(st, s, b))
  }

  ghost function ChartOf(st: Style, s: seq<byte>): (m: Chart)
    ensures Charts(st, s, m)
  {
    Chart(seq(|s| + 1, p requires 0 <= p <= |s| => Outside(s, p)),
          seq(|s| + 1, p requires 0 <= p <= |s| => Depth(s, p)),
          seq(|s|, b requires 0 <= b < |s| => LaidBehind(st, s, b)))
  }

  predicate All(laid: seq<bool>, p: nat, q: nat) {
    q <= |laid| && forall b :: p <= b < q ==> laid[b]
  }

  lemma LaidOnChart(st: Style, s: seq<byte>, m: Chart, p: nat, q: nat)
    requires Charts(st, s, m) && Laid(st, s, p, q)
    ensures All(m.laid, p, q)
  {
    forall b | p <= b < q ensures m.laid[b] { assert LaidBehind(st, s, b); }
  }

  /** Between tokens at `p`, at this depth. */
  ghost predicate Stands(m: Chart, p: nat, depth: int) {
    p < |m.out| == |m.depth| && m.out[p] && m.depth[p] == depth
  }

  lemma StandsOutside(st: Style, s: seq<byte>, m: Chart, p: nat, depth: int)
    requires Charts(st, s, m)
    ensures Stands(m, p, depth) <==> Outside(s, p) && Depth(s, p) == depth
  {
    if p <= |s| { assert m.out[p] == Outside(s, p) && m.depth[p] == Depth(s, p); }
  }

  /** The text from `p` to `q` is a value at a depth, laid out up to its last byte. */
  ghost predicate ValueOn(s: seq<byte>, m: Chart, p: nat, q: nat, depth: int) {
    p < q <= |s| && Stands(m, q, depth) && StartsValue(s[p]) && EndsValue(s[q - 1]) && All(m.laid, p, q - 1)
  }

  /** What stands from byte `p - 1` to the bracket at `q - 1` that closes this depth is laid out. */
  ghost predicate ListOn(s: seq<byte>, m: Chart, p: nat, q: nat, depth: int) {
    0 < p < q <= |s| && Stands(m, q, depth - 1) && IsClose(s[q - 1]) && All(m.laid, p - 1, q - 1)
  }

  lemma ValueOnChart(st: Style, s: seq<byte>, m: Chart, p: nat, q: nat, depth: int)
    requires Charts(st, s, m) && ValueLaid(st, s, p, q) && Depth(s, p) == depth
    ensures ValueOn(s, m, p, q, depth)
  {
    LaidOnChart(st, s, m, p, q - 1);
    StandsOutside(st, s, m, q, depth);
  }

  lemma ScalarOn(st: Style, v: Value, s: seq<byte>, m: Chart, p: nat, depth: int)
    requires Charts(st, s, m) && PlainFloats(st) && !v.Array? && !v.Object?
    requires TextAt(s, p, PrintScalar(st, v)) && Stands(m, p, depth)
    ensures ValueOn(s, m, p, p + |PrintScalar(st, v)|, depth)
  {
    StandsOutside(st, s, m, p, depth);
    ScalarLaid(st, v, s, p);
    ValueOnChart(st, s, m, p, p + |PrintScalar(st, v)|, depth);
  }

  lemma EmptyOn(st: Style, open: byte, close: byte, s: seq<byte>, m: Chart, p: nat, depth: int)
    requires Charts(st, s, m) && TextAt(s, p, [open] + [close]) && Stands(m, p, depth)
    requires (open == LBRACKET && close == RBRACKET) || (open == LBRACE && close == RBRACE)
    ensures ValueOn(s, m, p, p + 2, depth)
  {
    StandsOutside(st, s, m, p, depth);
    EmptyLaid(st, open, close, s, p);
    ValueOnChart(st, s, m, p, p + 2, depth);
  }

  lemma StructuralOn(st: Style, s: seq<byte>, m: Chart, p: nat, c: byte, rest: seq<byte>, depth: int)
    requires Charts(st, s, m) && Stands(m, p, depth) && TextAt(s, p, [c] + rest) && IsStructural(c)
    ensures p < |s| && s[p] == c && TextAt(s, p + 1, rest)
    ensures Stands(m, p + 1, depth + if IsOpen(c) then 1 else if IsClose(c) then -1 else 0)
  {
    StandsOutside(st, s, m, p, depth);
    StructuralPassed(s, p, c, rest);
    StandsOutside(st, s, m, p + 1, Depth(s, p + 1));
  }

  lemma BreakOn(st: Style, dent: u16, s: seq<byte>, m: Chart, p: nat, rest: seq<byte>, depth: int) returns (q: nat)
    requires Charts(st, s, m) && 0 < p && Stands(m, p, depth) && TextAt(s, p, NewLineText(st, dent) + rest)
    requires rest != [] && !IsBlank(rest[0]) && Dented(st, dent, depth - if IsClose(rest[0]) then 1 else 0)
    requires (IsOpen(s[p - 1]) && !IsClose(rest[0])) || s[p - 1] == COMMA || (IsClose(rest[0]) && EndsValue(s[p - 1]))
    ensures q == p + |NewLineText(st, dent)| && Stands(m, q, depth) && TextAt(s, q, rest) && All(m.laid, p - 1, q)
  {
    q := p + |NewLineText(st, dent)|;
    StandsOutside(st, s, m, p, depth);
    BreakLaid(st, dent, s, p, rest, depth - if IsClose(rest[0]) then 1 else 0);
    StandsOutside(st, s, m, q, depth);
    LaidOnChart(st, s, m, p - 1, q);
  }

  lemma HeadOn(st: Style, key: seq<byte>, dent: u16, s: seq<byte>, m: Chart, p: nat, rest: seq<byte>, depth: int)
    returns (q: nat)
    requires Charts(st, s, m) && 0 < p && Stands(m, p, depth) && (s[p - 1] == LBRACE || s[p - 1] == COMMA)
    requires TextAt(s, p, NewLineText(st, dent) + (Quoted(key) + (ColonText(st) + rest))) && Dented(st, dent, depth)
    requires rest != [] && StartsValue(rest[0])
    ensures q == p + |NewLineText(st, dent)| + |Quoted(key)| + |ColonText(st)|
    ensures p <= q && Stands(m, q, depth) && TextAt(s, q, rest) && All(m.laid, p - 1, q)
  {
    StandsOutside(st, s, m, p, depth);
    q := HeadLaid(st, key, dent, s, p, rest);
    StandsOutside(st, s, m, q, depth);
    LaidOnChart(st, s, m, p - 1, q);
  }

  // ----- lists

  lemma {:induction false} PrintOn(st: Style, v: Value, dent: u16, s: seq<byte>, m: Chart, p: nat, depth: int)
    requires Charts(st, s, m) && PlainFloats(st) && TextAt(s, p, Print(st, v, dent))
    requires Stands(m, p, depth) && Dented(st, dent, depth)
    ensures ValueOn(s, m, p, p + |Print(st, v, dent)|, depth)
    decreases v, 0
  {
    match v
    case Array(es) => ArrayOn(st, es, dent, s, m, p, depth);
    case Object(ms) => ObjectOn(st, ms, dent, s, m, p, depth);
    case _ => ScalarOn(st, v, s, m, p, depth);
  }

  lemma ListIsValue(s: seq<byte>, m: Chart, p: nat, q: nat, depth: int)
    requires p < |s| && IsOpen(s[p]) && ListOn(s, m, p + 1, q, depth + 1)
    ensures ValueOn(s, m, p, q, depth)
  {}

  /** An opening bracket, and one level more. */
  lemma OpenOn(st: Style, open: byte, dent: u16, s: seq<byte>, m: Chart, p: nat, text: seq<byte>, depth: int)
    requires Charts(st, s, m) && TextAt(s, p, [open] + text) && IsOpen(open) && Stands(m, p, depth) && Dented(st, dent, depth)
    ensures p < |s| && s[p] == open && TextAt(s, p + 1, text)
    ensures Stands(m, p + 1, depth + 1) && Dented(st, Deeper(st, dent), depth + 1)
  {
    StructuralOn(st, s, m, p, open, text, depth);
    DentedDeeper(st, dent, depth);
  }

  lemma ArrayIs(st: Style, es: seq<Value>, dent: u16)
    requires es != []
    ensures Print(st, Array(es), dent) == [LBRACKET] + PrintElems(st, es, Deeper(st, dent))
  {}

  lemma ObjectIs(st: Style, ms: seq<Member>, dent: u16)
    requires ms != []
    ensures Print(st, Object(ms), dent) == [LBRACE] + PrintMembers(st, ms, Deeper(st, dent))
  {}

  lemma {:induction false} ArrayOn(st: Style, es: seq<Value>, dent: u16, s: seq<byte>, m: Chart, p: nat, depth: int)
    requires Charts(st, s, m) && PlainFloats(st) && TextAt(s, p, Print(st, Array(es), dent))
    requires Stands(m, p, depth) && Dented(st, dent, depth)
    ensures ValueOn(s, m, p, p + |Print(st, Array(es), dent)|, depth)
    decreases es, 6
  {
    if es == [] {
      EmptyOn(st, LBRACKET, RBRACKET, s, m, p, depth);
    } else {
      ArrayIs(st, es, dent);
      ElemsInside(st, es, dent, s, m, p, depth);
    }
  }

  lemma {:induction false} ElemsInside(st: Style, es: seq<Value>, dent: u16, s: seq<byte>, m: Chart, p: nat, depth: int)
    requires Charts(st, s, m) && PlainFloats(st) && es != [] && Stands(m, p, depth) && Dented(st, dent, depth)
    requires TextAt(s, p, [LBRACKET] + PrintElems(st, es, Deeper(st, dent)))
    ensures ValueOn(s, m, p, p + 1 + |PrintElems(st, es, Deeper(st, dent))|, depth)
    decreases es, 4
  {
    var text := PrintElems(st, es, Deeper(st, dent));
    OpenOn(st, LBRACKET, dent, s, m, p, text, depth);
    ElemsOn(st, es, Deeper(st, dent), s, m, p + 1, depth + 1);
    ListIsValue(s, m, p, p + 1 + |text|, depth);
  }

  lemma PrintStarts(st: Style, v: Value, dent: u16)
    requires PlainFloats(st)
    ensures Print(st, v, dent) != [] && StartsValue(Print(st, v, dent)[0])
  {
    match v
    case I64(i) => DecimalBytes(i);
    case _ =>
  }

  lemma ElemsAre(st: Style, es: seq<Value>, dent: u16)
    requires es != []
    ensures PrintElems(st, es, dent) == ElementText(st, es[0], dent, ElemsRest(st, es[1..], dent))
  {}

  lemma MembersAre(st: Style, ms: seq<Member>, dent: u16)
    requires ms != []
    ensures PrintMembers(st, ms, dent) == G.MemberText(st, ms[0], dent, MembersRest(st, ms[1..], dent))
  {}

  lemma {:induction false} ElemsOn(st: Style, es: seq<Value>, dent: u16, s: seq<byte>, m: Chart, p: nat, depth: int)
    requires Charts(st, s, m) && PlainFloats(st) && es != [] && TextAt(s, p, PrintElems(st, es, dent))
    requires 0 < p && Stands(m, p, depth) && (s[p - 1] == LBRACKET || s[p - 1] == COMMA) && Dented(st, dent, depth) && depth > 0
    ensures ListOn(s, m, p, p + |PrintElems(st, es, dent)|, depth)
    decreases es, 3
  {
    var rest := ElemsRest(st, es[1..], dent);
    ElemsAre(st, es, dent);
    var p1, p2 := ElementOn(st, es[0], dent, s, m, p, rest, depth);
    ElemsRestOn(st, es[1..], dent, s, m, p2, depth);
    ListJoins(s, m, p, p1, p2, p2 + |rest|, depth);
  }

  /** A line break and a value. */
  lemma {:induction false} ElementOn(st: Style, v: Value, dent: u16, s: seq<byte>, m: Chart, p: nat, rest: seq<byte>, depth: int)
    returns (p1: nat, p2: nat)
    requires Charts(st, s, m) && PlainFloats(st) && TextAt(s, p, ElementText(st, v, dent, rest))
    requires 0 < p && Stands(m, p, depth) && (s[p - 1] == LBRACKET || s[p - 1] == COMMA) && Dented(st, dent, depth) && depth > 0
    ensures p <= p1 && All(m.laid, p - 1, p1) && ValueOn(s, m, p1, p2, depth)
    ensures TextAt(s, p2, rest) && p2 + |rest| == p + |ElementText(st, v, dent, rest)|
    decreases v, 2
  {
    var w := Print(st, v, dent);
    PrintStarts(st, v, dent);
    p1 := BreakOn(st, dent, s, m, p, w + rest, depth);
    p2 := p1 + |w|;
    TextSplits(s, p1, w, rest);
    PrintOn(st, v, dent, s, m, p1, depth);
  }

  /** What is in front of a value, the value, and the rest of the list. */
  lemma ListJoins(s: seq<byte>, m: Chart, p: nat, p1: nat, p2: nat, q: nat, depth: int)
    requires 0 < p <= p1 && All(m.laid, p - 1, p1) && ValueOn(s, m, p1, p2, depth) && ListOn(s, m, p2, q, depth)
    ensures ListOn(s, m, p, q, depth)
  {}

  /** Behind the last value: a line break and the closing bracket. */
  lemma EndOn(st: Style, dent: u16, close: byte, s: seq<byte>, m: Chart, p: nat, depth: int)
    requires Charts(st, s, m) && TextAt(s, p, NewLineText(st, dent) + [close]) && IsClose(close)
    requires 0 < p && Stands(m, p, depth) && EndsValue(s[p - 1]) && Dented(st, dent, depth - 1)
    ensures ListOn(s, m, p, p + |NewLineText(st, dent)| + 1, depth)
  {
    var q := BreakOn(st, dent, s, m, p, [close], depth);
    assert [close] + [] == [close];
    StructuralOn(st, s, m, q, close, [], depth);
  }

  /** Behind a value with more to come: a comma. */
  lemma CommaOn(st: Style, s: seq<byte>, m: Chart, p: nat, text: seq<byte>, depth: int)
    requires Charts(st, s, m) && TextAt(s, p, [COMMA] + text) && 0 < p && Stands(m, p, depth) && EndsValue(s[p - 1])
    ensures p < |s| && s[p] == COMMA && TextAt(s, p + 1, text) && Stands(m, p + 1, depth) && m.laid[p - 1]
  {
    StructuralOn(st, s, m, p, COMMA, text, depth);
    NothingLaid(st, s, p);
    assert LaidBehind(st, s, p - 1);
  }

  lemma ListFollows(s: seq<byte>, m: Chart, p: nat, q: nat, depth: int)
    requires 0 < p && p - 1 < |m.laid| && m.laid[p - 1] && ListOn(s, m, p + 1, q, depth)
    ensures ListOn(s, m, p, q, depth)
  {}

  lemma {:induction false} ElemsRestOn(st: Style, es: seq<Value>, dent: u16, s: seq<byte>, m: Chart, p: nat, depth: int)
    requires Charts(st, s, m) && PlainFloats(st) && TextAt(s, p, ElemsRest(st, es, dent))
    requires 0 < p && Stands(m, p, depth) && EndsValue(s[p - 1]) && Dented(st, dent, depth) && depth > 0
    ensures ListOn(s, m, p, p + |ElemsRest(st, es, dent)|, depth)
    decreases es, 5
  {
    if es == [] {
      DentedShallower(st, dent, depth);
      EndOn(st, Shallower(st, dent), RBRACKET, s, m, p, depth);
    } else {
      var text := PrintElems(st, es, dent);
      assert ElemsRest(st, es, dent) == [COMMA] + text;
      CommaOn(st, s, m, p, text, depth);
      ElemsOn(st, es, dent, s, m, p + 1, depth);
      ListFollows(s, m, p, p + 1 + |text|, depth);
    }
  }

  lemma {:induction false} ObjectOn(st: Style, ms: seq<Member>, dent: u16, s: seq<byte>, m: Chart, p: nat, depth: int)
    requires Charts(st, s, m) && PlainFloats(st) && TextAt(s, p, Print(st, Object(ms), dent))
    requires Stands(m, p, depth) && Dented(st, dent, depth)
    ensures ValueOn(s, m, p, p + |Print(st, Object(ms), dent)|, depth)
    decreases ms, 6
  {
    if ms == [] {
      EmptyOn(st, LBRACE, RBRACE, s, m, p, depth);
    } else {
      ObjectIs(st, ms, dent);
      MembersInside(st, ms, dent, s, m, p, depth);
    }
  }

  lemma {:induction false} MembersInside(st: Style, ms: seq<Member>, dent: u16, s: seq<byte>, m: Chart, p: nat, depth: int)
    requires Charts(st, s, m) && PlainFloats(st) && ms != [] && Stands(m, p, depth) && Dented(st, dent, depth)
    requires TextAt(s, p, [LBRACE] + PrintMembers(st, ms, Deeper(st, dent)))
    ensures ValueOn(s, m, p, p + 1 + |PrintMembers(st, ms, Deeper(st, dent))|, depth)
    decreases ms, 4
  {
    var text := PrintMembers(st, ms, Deeper(st, dent));
    OpenOn(st, LBRACE, dent, s, m, p, text, depth);
    MembersOn(st, ms, Deeper(st, dent), s, m, p + 1, depth + 1);
    ListIsValue(s, m, p, p + 1 + |text|, depth);
  }

  lemma {:induction false} MembersOn(st: Style, ms: seq<Member>, dent: u16, s: seq<byte>, m: Chart, p: nat, depth: int)
    requires Charts(st, s, m) && PlainFloats(st) && ms != [] && TextAt(s, p, PrintMembers(st, ms, dent))
    requires 0 < p && Stands(m, p, depth) && (s[p - 1] == LBRACE || s[p - 1] == COMMA) && Dented(st, dent, depth) && depth > 0
    ensures ListOn(s, m, p, p + |PrintMembers(st, ms, dent)|, depth)
    decreases ms, 3
  {
    var rest := MembersRest(st, ms[1..], dent);
    MembersAre(st, ms, dent);
    var p1, p2 := MemberOn(st, ms[0], dent, s, m, p, rest, depth);
    MembersRestOn(st, ms[1..], dent, s, m, p2, depth);
    ListJoins(s, m, p, p1, p2, p2 + |rest|, depth);
  }

  /** A line break, a name and its value. */
  lemma {:induction false} MemberOn(st: Style, x: Member, dent: u16, s: seq<byte>, m: Chart, p: nat, rest: seq<byte>, depth: int)
    returns (p1: nat, p2: nat)
    requires Charts(st, s, m) && PlainFloats(st) && TextAt(s, p, G.MemberText(st, x, dent, rest))
    requires 0 < p && Stands(m, p, depth) && (s[p - 1] == LBRACE || s[p - 1] == COMMA) && Dented(st, dent, depth) && depth > 0
    ensures p <= p1 && All(m.laid, p - 1, p1) && ValueOn(s, m, p1, p2, depth)
    ensures TextAt(s, p2, rest) && p2 + |rest| == p + |G.MemberText(st, x, dent, rest)|
    decreases x, 0
  {
    var w := Print(st, x.value, dent);
    PrintStarts(st, x.value, dent);
    p1 := HeadOn(st, x.key, dent, s, m, p, w + rest, depth);
    p2 := p1 + |w|;
    TextSplits(s, p1, w, rest);
    PrintOn(st, x.value, dent, s, m, p1, depth);
  }

  lemma {:induction false} MembersRestOn(st: Style, ms: seq<Member>, dent: u16, s: seq<byte>, m: Chart, p: nat, depth: int)
    requires Charts(st, s, m) && PlainFloats(st) && TextAt(s, p, MembersRest(st, ms, dent))
    requires 0 < p && Stands(m, p, depth) && EndsValue(s[p - 1]) && Dented(st, dent, depth) && depth > 0
    ensures ListOn(s, m, p, p + |MembersRest(st, ms, dent)|, depth)
    decreases ms, 5
  {
    if ms == [] {
      DentedShallower(st, dent, depth);
      EndOn(st, Shallower(st, dent), RBRACE, s, m, p, depth);
    } else {
      var text := PrintMembers(st, ms, dent);
      assert MembersRest(st, ms, dent) == [COMMA] + text;
      CommaOn(st, s, m, p, text, depth);
      MembersOn(st, ms, dent, s, m, p + 1, depth);
      ListFollows(s, m, p, p + 1 + |text|, depth);
    }
  }

  // ----- whole texts

  /** The text starts with no blank, is laid out throughout, and ends outside strings. */
  ghost predicate IsLaid(st: Style, s: seq<byte>) {
    s != [] && !IsBlank(s[0]) && Laid(st, s, 0, |s|) && Outside(s, |s|)
  }

  lemma WholeStarts(st: Style, s: seq<byte>, m: Chart)
    requires Charts(st, s, m)
    ensures TextAt(s, 0, s) && Stands(m, 0, 0)
  {
    TextSlice(s, 0, s);
    StandsOutside(st, s, m, 0, 0);
  }

  /** The layout of everything that is printed. */
  lemma PrintIsLaid(st: Style, v: Value)
    requires PlainFloats(st)
    ensures IsLaid(st, Print(st, v, 0))
  {
    var s := Print(st, v, 0);
    var m := ChartOf(st, s);
    WholeStarts(st, s, m);
    PrintOn(st, v, 0, s, m, 0, 0);
    WholeLaid(st, s, m);
  }

  lemma WholeLaid(st: Style, s: seq<byte>, m: Chart)
    requires Charts(st, s, m) && ValueOn(s, m, 0, |s|, 0)
    ensures IsLaid(st, s)
  {
    StandsOutside(st, s, m, |s|, 0);
    forall b | 0 <= b < |s| ensures LaidBehind(st, s, b) { assert b < |s| - 1 ==> m.laid[b]; }
  }

  /** A blank outside strings lies in the gap behind some byte. */
  lemma {:induction false} BlankBehind(s: seq<byte>, p: nat) returns (b: nat)
    requires p < |s| && !IsBlank(s[0]) && IsBlank(s[p]) && !InString(s, p + 1)
    ensures b < p < Skip(s, b + 1) && !IsBlank(s[b]) && !InString(s, b + 1)
    ensures Skip(s, b + 1) == Skip(s, p + 1)
  {
    assert !InString(s, p);
    if IsBlank(s[p - 1]) { b := BlankBehind(s, p - 1); } else { b := p - 1; }
  }

  /** In the compact style there is no blank outside strings. */
  lemma CompactHasNoBlanks(st: Style, v: Value, p: nat)
    requires PlainFloats(st) && !st.pretty && p < |Print(st, v, 0)| && IsBlank(Print(st, v, 0)[p])
    ensures InString(Print(st, v, 0), p + 1)
  {
    var s := Print(st, v, 0);
    PrintIsLaid(st, v);
    if !InString(s, p + 1) {
      var b := BlankBehind(s, p);
      NoGap(st, s, b);
      assert false;
    }
  }

  lemma NoGap(st: Style, s: seq<byte>, b: nat)
    requires !st.pretty && Laid(st, s, 0, |s|) && b < |s| && !IsBlank(s[b]) && !InString(s, b + 1)
    ensures Skip(s, b + 1) == b + 1
  {
    assert LaidBehind(st, s, b);
    var q := Skip(s, b + 1);
    if q < |s| { assert |s[b + 1..q]| == 0; }
  }

  /** In the indenting style exactly one space follows the colon behind a name. */
  lemma ColonHasOneSpace(st: Style, v: Value, c: nat)
    requires PlainFloats(st) && st.pretty && c < |Print(st, v, 0)|
    requires Print(st, v, 0)[c] == COLON && !InString(Print(st, v, 0), c + 1)
    ensures var s := Print(st, v, 0); c + 1 == |s| || (c + 2 < |s| && s[c + 1] == SPACE && !IsBlank(s[c + 2]))
  {
    var s := Print(st, v, 0);
    PrintIsLaid(st, v);
    assert LaidBehind(st, s, c);
    var q := Skip(s, c + 1);
    if q < |s| { assert s[c + 1..q][0] == s[c + 1]; }
  }

  /**
   Behind byte `p` stand as many spaces as the width says for the depth there, with a closing bracket counted as
   closed, and then no blank: as many as the product of the two, while that fits 16 bits.
   */
  predicate IsIndented(st: Style, s: seq<byte>, p: nat)
    requires p < |s|
  {
    var q := Skip(s, p + 1);
    && st.pretty && q < |s|
    && var depth := Depth(s, p + 1) - if IsClose(s[q]) then 1 else 0;
       && depth >= 0 && s[p + 1..q] == Spaces(Indentation(st.spaces, depth))
       && (depth * st.spaces < 0x1_0000 ==> q - (p + 1) == depth * st.spaces)
  }

  /** So it is behind every line feed. */
  lemma LineIndented(st: Style, v: Value, p: nat)
    requires PlainFloats(st) && p < |Print(st, v, 0)| && Print(st, v, 0)[p] == LINEFEED
    ensures IsIndented(st, Print(st, v, 0), p)
  {
    var s := Print(st, v, 0);
    PrintIsLaid(st, v);
    ControlFreeExact(s, |s|);
    LineAt(st, s, p);
  }

  lemma LineAt(st: Style, s: seq<byte>, p: nat)
    requires Laid(st, s, 0, |s|) && p < |s| && s[p] == LINEFEED && !IsBlank(s[0]) && !HasControlInString(s, |s|)
    ensures IsIndented(st, s, p)
  {
    assert !InString(s, p + 1);
    var b := BlankBehind(s, p);
    var depth := GapOfLine(st, s, b, p);
    if depth * st.spaces < 0x1_0000 { IndentationExact(st.spaces, depth); }
  }

  /** A line feed is the first byte of its gap. */
  lemma GapOfLine(st: Style, s: seq<byte>, b: nat, p: nat) returns (depth: nat)
    requires Laid(st, s, 0, |s|) && b < p < |s| && p < Skip(s, b + 1) && s[p] == LINEFEED && !IsBlank(s[b]) && !InString(s, b + 1)
    ensures var q := Skip(s, b + 1);
            && p == b + 1 && st.pretty && q < |s| && depth == Depth(s, p + 1) - (if IsClose(s[q]) then 1 else 0)
            && depth >= 0 && s[p + 1..q] == Spaces(Indentation(st.spaces, depth))
  {
    var q := Skip(s, b + 1);
    assert LaidBehind(st, s, b);
    var gap := s[b + 1..q];
    assert gap[p - b - 1] == s[p] && gap[0] == s[b + 1];
    assert s[p + 1..q] == gap[p - b..];
    depth := DepthBetween(s, b, q);
  }
}
