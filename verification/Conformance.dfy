/** The parser against RFC 8259: where the two agree on whole inputs, and exactly where they part. */
module Conformance {
  import opened Bytes
  import opened Scanner
  import opened Utf8
  import opened Grammar
  import opened Escapes
  import opened Strings
  import opened Values
  import opened TokenText
  import opened JsonText
  import opened TokenReading
  import opened Documents
  import N = Numbers
  import S1 = Stage1
  import S2 = Stage2
  import T = Tape

  // ----- what sets a token apart

  /** The number or name at `p` is ended by a NUL of the input, behind which the parser looks at nothing. */
  predicate EndedByNul(s: seq<byte>, p: nat) {
    p < |s| && PrimText(s, p).Some? && PrimText(s, p).value.end < |s| && s[PrimText(s, p).value.end] == 0
  }

  /** The token reads as RFC 8259 has it: no control byte, no surrogate out of its pair, no NUL behind it. */
  ghost predicate TokenStrict(d: Doc, x: nat)
    requires x < |d.k|
  {
    (d.k[x] == Str ==> Regular(d.s, d.Pos(x) + 1)) && (d.k[x] == Prim ==> !EndedByNul(d.s, d.Pos(x)))
  }

  /** The number at `p`, if there is one, is one the parser accepts. */
  predicate NumberFits(s: seq<byte>, p: nat) {
    p < |s| && (s[p] == MINUS || IsDigit(s[p])) ==>
      var start := if s[p] == MINUS then 1 else 0;
      N.LiteralAt(s[p..], start).Some? ==> N.InRange(s[p..], start, s[p] == MINUS, N.LiteralAt(s[p..], start).value)
  }

  ghost predicate TokenFits(d: Doc, x: nat)
    requires x < |d.k|
  {
    d.k[x] == Prim ==> NumberFits(d.s, d.Pos(x))
  }

  // ----- between tokens

  predicate Delimited(s: seq<byte>, q: nat) {
    q >= |s| || IsBlank(s[q]) || IsStructural(s[q])
  }

  /** The next token may start at `p` or behind the white space there. */
  ghost predicate Between(s: seq<byte>, p: nat) {
    Outside(s, p) && (Follows(s, p) || Delimited(s, p))
  }

  /** The byte behind the white space is the next token, or there is none. */
  lemma {:induction false} SkipArrives(d: Doc, p: nat)
    requires IsDocOf(d) && Between(d.s, p)
    ensures var b := Skip(d.s, p);
            && Between(d.s, b) && No(d.s, b) == No(d.s, p)
            && (b == |d.s| ==> No(d.s, p) == |d.k|)
            && (b < |d.s| ==> (IsStructural(d.s[b]) || Follows(d.s, b)) && TokenHere(d, b, S2.KindAt(d.s, b)))
    decreases |d.s| - p
  {
    if p < |d.s| {
      if IsBlank(d.s[p]) {
        ByteStep(d.s, p);
        SkipArrives(d, p + 1);
      } else {
        TokenIsHere(d, p);
      }
    }
  }

  /** A structural byte is one token. */
  lemma PunctuationRead(d: Doc, c: nat)
    requires IsDocOf(d) && Outside(d.s, c) && c < |d.s| && IsStructural(d.s[c])
    ensures Between(d.s, c + 1) && TokenHere(d, c, S2.KindAt(d.s, c)) && No(d.s, c + 1) == No(d.s, c) + 1
    ensures TokenStrict(d, No(d.s, c)) && TokenFits(d, No(d.s, c))
  {
    ByteStep(d.s, c);
    TokenIsHere(d, c);
    S2.ByteOfKind(d.s, c);
  }

  // ----- agreement

  /**
   What is known of a document by position and by token: where the next token may start, its number, which
   tokens are strict, which hold no number the parser refuses, and what lists are read there.
   */
  datatype Chart = Chart(between: seq<bool>, no: seq<nat>, strict: seq<bool>, fits: seq<bool>,
                         elems: seq<Option<Read<seq<Value>>>>, seenElems: seq<Option<Read<seq<Value>>>>,
                         members: seq<Option<Read<seq<Member>>>>, seenMembers: seq<Option<Read<seq<Member>>>>)
  {
    ghost predicate Fitting(d: Doc) {
      && |between| == |no| == |elems| == |members| == |d.s| + 1 && |strict| == |fits| == |d.k|
      && |seenElems| == |seenMembers| == |d.k| + 2
    }
  }

  ghost predicate Charts(d: Doc, m: Chart) {
    && m.Fitting(d)
    && (forall p {:trigger Between(d.s, p)} :: 0 <= p <= |d.s| ==> IsDocOf(d) && m.between[p] == Between(d.s, p))
    && (forall p {:trigger No(d.s, p)} :: 0 <= p <= |d.s| ==> m.no[p] == No(d.s, p))
    && (forall x {:trigger TokenStrict(d, x)} :: 0 <= x < |d.k| ==> m.strict[x] == TokenStrict(d, x))
    && (forall x {:trigger TokenFits(d, x)} :: 0 <= x < |d.k| ==> m.fits[x] == TokenFits(d, x))
    && (forall p {:trigger ElemsText(d.s, p)} :: 0 <= p <= |d.s| ==> m.elems[p] == ElemsText(d.s, p))
    && (forall x {:trigger SeenElems(d, x)} :: 0 <= x < |d.k| + 2 ==> m.seenElems[x] == SeenElems(d, x))
    && (forall p {:trigger MembersText(d.s, p)} :: 0 <= p <= |d.s| ==> m.members[p] == MembersText(d.s, p))
    && (forall x {:trigger SeenMembers(d, x)} :: 0 <= x < |d.k| + 2 ==> m.seenMembers[x] == SeenMembers(d, x))
  }

  ghost function ChartOf(d: Doc): (m: Chart)
    requires IsDocOf(d)
    ensures Charts(d, m)
  {
    Chart(seq(|d.s| + 1, p requires 0 <= p <= |d.s| => Between(d.s, p)),
          seq(|d.s| + 1, p requires 0 <= p <= |d.s| => No(d.s, p)),
          seq(|d.k|, x requires 0 <= x < |d.k| => TokenStrict(d, x)),
          seq(|d.k|, x requires 0 <= x < |d.k| => TokenFits(d, x)),
          seq(|d.s| + 1, p requires 0 <= p <= |d.s| => ElemsText(d.s, p)),
          seq(|d.k| + 2, x requires 0 <= x < |d.k| + 2 => SeenElems(d, x)),
          seq(|d.s| + 1, p requires 0 <= p <= |d.s| => MembersText(d.s, p)),
          seq(|d.k| + 2, x requires 0 <= x < |d.k| + 2 => SeenMembers(d, x)))
  }

  lemma ChartsDoc(d: Doc, m: Chart)
    requires Charts(d, m)
    ensures IsDocOf(d)
  {
    assert Between(d.s, 0) || !Between(d.s, 0);
  }

  /** All of the entries from `i` up to `j` hold. */
  predicate All(b: seq<bool>, i: nat, j: nat) {
    j <= |b| && forall x :: i <= x < j ==> b[x]
  }

  /** Reading by bytes from token `i` on and reading the tokens from there agree. */
  ghost predicate Agrees<T>(m: Chart, i: nat, r: Option<Read<T>>, seen: Option<Read<T>>) {
    match r
    case Some(x) =>
      && x.end < |m.between| == |m.no| && m.between[x.end]
      && var j := m.no[x.end];
         && i < j && All(m.strict, i, j)
         && (All(m.fits, i, j) ==> seen.Some?) && (seen.Some? ==> seen == Some(Read(x.value, j)))
    case None =>
      seen.Some? ==> !All(m.strict, i, seen.value.end)
  }

  /** A number or name counts as read only if something ends it. */
  function Ended(s: seq<byte>, r: Option<Read<Value>>): Option<Read<Value>> {
    if r.Some? && (r.value.value.String? || r.value.value.Array? || r.value.value.Object? || Delimited(s, r.value.end))
    then r else None
  }

  // ----- strings

  /** The bytes of a string that RFC 8259 allows are no control characters. */
  lemma {:induction false} NoControlInside(s: seq<byte>, i: nat)
    requires RfcString(s, i).Some?
    ensures i <= RfcString(s, i).value.end && forall j :: i <= j < RfcString(s, i).value.end && j < |s| ==> s[j] > 0x1f
    decreases if i <= |s| then |s| - i else 0
  {
    if s[i] == BACKSLASH {
      var e := RfcEscape(s, i).value;
      NoControlInside(s, i + e.len);
      EscapeVisible(s, i);
    } else if s[i] != QUOTE {
      NoControlInside(s, i + 1);
    }
  }

  lemma EscapeVisible(s: seq<byte>, i: nat)
    requires i < |s| && s[i] == BACKSLASH && RfcEscape(s, i).Some?
    ensures forall j :: i <= j < i + RfcEscape(s, i).value.len && j < |s| ==> s[j] > 0x1f
  {
    var n := RfcEscape(s, i).value.len;
    if At(s, i + 1) == LOWER_U { UnicodeVisible(s, i); }
    forall j | i <= j < i + n && j < |s| ensures s[j] > 0x1f { assert s[j] == At(s, j); }
  }

  lemma UnicodeVisible(s: seq<byte>, i: nat)
    requires RfcEscape(s, i).Some? && At(s, i) == BACKSLASH && At(s, i + 1) == LOWER_U
    ensures forall j :: i <= j < i + RfcEscape(s, i).value.len ==> At(s, j) > 0x1f
  {
    HexVisible(s, i + 2);
    if RfcEscape(s, i).value.len == 12 { HexVisible(s, i + 8); }
  }

  lemma HexVisible(s: seq<byte>, i: nat)
    requires FourHex(s, i)
    ensures forall j :: i <= j < i + 4 ==> At(s, j) > 0x1f
  {}

  /** A string by its bytes and its token. */
  lemma StringAgrees(d: Doc, m: Chart, p: nat)
    requires Charts(d, m) && Outside(d.s, p) && p < |d.s| && d.s[p] == QUOTE && TokenHere(d, p, Str)
    ensures var i, r := No(d.s, p), StringAt(d.s, p);
            && Agrees(m, i, r, Behind(StringOf(d.s, d.Pos(i)), i + 1))
            && (r.Some? ==> m.no[r.value.end] == i + 1)
  {
    ChartsDoc(d, m);
    StringIsRfc(d.s, p + 1);
    assert m.strict[No(d.s, p)] == TokenStrict(d, No(d.s, p));
    if StringAt(d.s, p).Some? {
      StringWithin(d, p);
      assert Between(d.s, StringAt(d.s, p).value.end);
    }
  }

  lemma StringWithin(d: Doc, p: nat)
    requires IsDocOf(d) && Outside(d.s, p) && p < |d.s| && d.s[p] == QUOTE && StringAt(d.s, p).Some?
    ensures var q := StringAt(d.s, p).value.end; Between(d.s, q) && No(d.s, q) == No(d.s, p) + 1
  {
    StringIsRfc(d.s, p + 1);
    NoControlInside(d.s, p + 1);
    QuotedText(d, p, RfcString(d.s, p + 1).value.end);
  }

  // ----- numbers and names

  predicate IsBareRun(s: seq<byte>, p: nat, q: nat) {
    p < q <= |s| && forall j :: p <= j < q ==> IsBare(s[j])
  }

  lemma {:induction false} DigitsBare(s: seq<byte>, i: nat, j: nat)
    requires forall k :: i <= k < j ==> IsDigit(At(s, k))
    ensures forall k :: i <= k < j && k < |s| ==> IsBare(s[k])
  {
    forall k | i <= k < j && k < |s| ensures IsBare(s[k]) { assert IsDigit(At(s, k)); }
  }

  lemma PartsBare(s: seq<byte>, p: nat)
    requires PartsAt(s, p).Some?
    ensures IsBareRun(s, p, PartsAt(s, p).value.end)
  {
    var l := PartsAt(s, p).value;
    PartsEnd(s, p);
    DigitsBare(s, p + 1, l.intEnd);
    DigitsBare(s, l.intEnd + 1, l.fracEnd);
    DigitsBare(s, N.ExpDigits(s, l.fracEnd), l.end);
    forall j | p <= j < l.end ensures IsBare(s[j]) {
      assert s[j] == At(s, j);
    }
  }

  lemma NumberBare(s: seq<byte>, p: nat)
    requires p < |s| && (s[p] == MINUS || IsDigit(s[p])) && NumberText(s, p).Some?
    ensures IsBareRun(s, p, NumberText(s, p).value.end)
  {
    var buf := s[p..];
    var start := if s[p] == MINUS then 1 else 0;
    PartsBare(buf, start);
    forall j | p <= j < NumberText(s, p).value.end ensures IsBare(s[j]) {
      if j >= p + start { assert buf[j - p] == s[j]; }
    }
  }

  /** The parser's reading of a number, by the longest number there and what stands behind it. */
  lemma NumberSeen(s: seq<byte>, p: nat)
    requires p < |s| && (s[p] == MINUS || IsDigit(s[p]))
    ensures var r, v := NumberText(s, p), ScalarOf(s, p);
            && (v.Some? ==> r.Some? && v.value == r.value.value && IsTerminator(At(s, r.value.end)) && NumberFits(s, p))
            && (r.Some? && IsTerminator(At(s, r.value.end)) && NumberFits(s, p) ==> v.Some?)
  {
    var buf := s[p..];
    var start := if s[p] == MINUS then 1 else 0;
    PartsEnd(buf, start);
    if PartsAt(buf, start).Some? {
      var e := PartsAt(buf, start).value.end;
      assert At(buf, e) == At(s, p + e);
    }
  }

  lemma NameStarts(s: seq<byte>, p: nat, w: seq<byte>)
    requires w == TRUE || w == FALSE || w == NULL
    ensures S2.Spelled(s, p, w) <==> StartsWith(s, p, w) && IsTerminator(At(s, p + |w|))
  {
    S2.SpelledAt(s, p, w);
    if p + |w| <= |s| {
      var t := s[p..p + |w|];
      assert t[0] == s[p] && t[1] == s[p + 1] && t[2] == s[p + 2] && t[3] == s[p + 3];
      if |w| == 5 { assert t[4] == s[p + 4]; }
      assert t == w <==> t[0] == w[0] && t[1] == w[1] && t[2] == w[2] && t[3] == w[3] && (|w| == 5 ==> t[4] == w[4]);
    }
  }

  lemma NameBare(s: seq<byte>, p: nat)
    requires NameText(s, p).Some?
    ensures p < |s| && IsBareRun(s, p, NameText(s, p).value.end)
  {
    var q := NameText(s, p).value.end;
    var w := s[p..q];
    assert w == TRUE || w == FALSE || w == NULL;
    forall j | p <= j < q ensures IsBare(s[j]) { assert s[j] == w[j - p]; }
  }

  /** The same for names; anything else is no token the grammar knows. */
  lemma NameSeen(s: seq<byte>, p: nat)
    requires p < |s| && !IsStructural(s[p]) && s[p] != QUOTE && s[p] != MINUS && !IsDigit(s[p])
    ensures var r := NameText(s, p);
            && (S2.KindAt(s, p) == Prim <==> r.Some? && IsTerminator(At(s, r.value.end)))
            && (S2.KindAt(s, p) != Prim ==> S2.KindAt(s, p) == Junk)
            && (r.Some? ==> ScalarOf(s, p) == Some(r.value.value))
  {
    NameStarts(s, p, TRUE);
    NameStarts(s, p, FALSE);
    NameStarts(s, p, NULL);
    if NameText(s, p).Some? {
      var w := s[p..NameText(s, p).value.end];
      assert w[0] == s[p];
    }
    assert TRUE[0] == LOWER_T && FALSE[0] == LOWER_F && NULL[0] == LOWER_N;
  }

  /** A number or name, by what ends it. */
  lemma PrimSeen(d: Doc, p: nat)
    requires p < |d.s| && TokenHere(d, p, S2.KindAt(d.s, p))
    requires !IsStructural(d.s[p]) && d.s[p] != QUOTE
    ensures var i, r := No(d.s, p), PrimText(d.s, p);
            && (Seen(d, i).Some? ==> Seen(d, i).value.end == i + 1 && d.k[i] == Prim
                                     && r.Some? && Seen(d, i).value.value == r.value.value)
            && (Seen(d, i).Some? ==> IsTerminator(At(d.s, r.value.end)))
            && (r.Some? && IsTerminator(At(d.s, r.value.end)) && TokenFits(d, i) ==> Seen(d, i).Some?)
  {
    SeenStep(d, No(d.s, p));
    if d.s[p] == MINUS || IsDigit(d.s[p]) { NumberSeen(d.s, p); } else { NameSeen(d.s, p); }
  }

  lemma PrimBare(s: seq<byte>, p: nat)
    requires p < |s| && PrimText(s, p).Some?
    ensures IsBareRun(s, p, PrimText(s, p).value.end)
  {
    if s[p] == MINUS || IsDigit(s[p]) { NumberBare(s, p); } else { NameBare(s, p); }
  }

  lemma PrimEnds(s: seq<byte>, p: nat)
    requires p < |s| && PrimText(s, p).Some?
    ensures Ended(s, PrimText(s, p)) == if Delimited(s, PrimText(s, p).value.end) then PrimText(s, p) else None
  {}

  /** A number or name token whose text ends at `q`. */
  ghost predicate PrimTo(d: Doc, p: nat, q: nat) {
    && IsDocOf(d) && Outside(d.s, p) && Follows(d.s, p) && p < |d.s| && TokenHere(d, p, S2.KindAt(d.s, p))
    && !IsStructural(d.s[p]) && !IsBlank(d.s[p]) && d.s[p] != QUOTE
    && PrimText(d.s, p).Some? && PrimText(d.s, p).value.end == q
  }

  lemma PrimKind(d: Doc, p: nat, q: nat)
    requires PrimTo(d, p, q) && (q < |d.s| ==> d.s[q] != 0)
    ensures TokenStrict(d, No(d.s, p))
  {
    S2.ByteOfKind(d.s, p);
  }

  lemma PrimWithin(d: Doc, p: nat, q: nat)
    requires PrimTo(d, p, q) && Delimited(d.s, q)
    ensures Between(d.s, q) && No(d.s, q) == No(d.s, p) + 1 && IsTerminator(At(d.s, q))
  {
    PrimBare(d.s, p);
    BareRun(d, p, q);
  }

  lemma PrimNul(d: Doc, p: nat, q: nat)
    requires PrimTo(d, p, q) && !Delimited(d.s, q) && IsTerminator(At(d.s, q)) && d.k[No(d.s, p)] == Prim
    ensures !TokenStrict(d, No(d.s, p))
  {}

  /** A number or name by its bytes and its token. */
  lemma PrimAgrees(d: Doc, m: Chart, p: nat)
    requires Charts(d, m) && Outside(d.s, p) && Follows(d.s, p) && p < |d.s|
    requires !IsStructural(d.s[p]) && !IsBlank(d.s[p]) && d.s[p] != QUOTE && TokenHere(d, p, S2.KindAt(d.s, p))
    ensures Agrees(m, No(d.s, p), Ended(d.s, PrimText(d.s, p)), Seen(d, No(d.s, p)))
  {
    ChartsDoc(d, m);
    PrimSeen(d, p);
    if PrimText(d.s, p).Some? {
      var r := PrimText(d.s, p).value;
      PrimEnds(d.s, p);
      PrimPlaced(d, m, p, r.end);
      PrimOnChart(m, No(d.s, p), r, Seen(d, No(d.s, p)), Delimited(d.s, r.end), At(d.s, r.end));
    }
  }

  lemma PrimOnChart(m: Chart, i: nat, r: Read<Value>, seen: Option<Read<Value>>, delimited: bool, b: byte)
    requires i < |m.strict| == |m.fits| && r.end < |m.between| == |m.no|
    requires seen.Some? ==> seen == Some(Read(r.value, i + 1)) && IsTerminator(b)
    requires delimited ==> IsTerminator(b) && m.between[r.end] && m.no[r.end] == i + 1 && m.strict[i]
    requires IsTerminator(b) && m.fits[i] ==> seen.Some?
    requires !delimited && seen.Some? ==> !m.strict[i]
    ensures Agrees(m, i, if delimited then Some(r) else None, seen)
  {}

  /** What the end of a number or name says on the chart. */
  lemma PrimPlaced(d: Doc, m: Chart, p: nat, q: nat)
    requires Charts(d, m) && PrimTo(d, p, q) && q <= |d.s|
    ensures var i := No(d.s, p);
            && i < |d.k| && m.fits[i] == TokenFits(d, i)
            && (Delimited(d.s, q) ==> m.between[q] && m.no[q] == i + 1 && m.strict[i] && IsTerminator(At(d.s, q)))
            && (!Delimited(d.s, q) && IsTerminator(At(d.s, q)) && d.k[i] == Prim ==> !m.strict[i])
  {
    assert m.strict[No(d.s, p)] == TokenStrict(d, No(d.s, p));
    if Delimited(d.s, q) {
      PrimWithin(d, p, q);
      PrimKind(d, p, q);
      assert m.between[q] == Between(d.s, q) && m.no[q] == No(d.s, q);
    } else if IsTerminator(At(d.s, q)) && d.k[No(d.s, p)] == Prim {
      PrimNul(d, p, q);
    }
  }

  // ----- lists on the chart

  /** A structural byte behind the white space at `q` is the next token. */
  lemma NextPunctuation(d: Doc, m: Chart, q: nat)
    requires Charts(d, m) && q <= |d.s| && m.between[q] && Skip(d.s, q) < |d.s| && IsStructural(d.s[Skip(d.s, q)])
    ensures var c, j := Skip(d.s, q), m.no[q];
            m.between[c + 1] && m.no[c + 1] == j + 1 && j < |m.strict| && m.strict[j] && m.fits[j]
  {
    var c := Skip(d.s, q);
    assert Between(d.s, q) && m.no[q] == No(d.s, q);
    SkipArrives(d, q);
    PunctuationRead(d, c);
    assert Between(d.s, c + 1) && m.no[c + 1] == No(d.s, c + 1);
  }

  /** What the byte behind the white space at `q` says about the next token. */
  lemma NextKind(d: Doc, m: Chart, q: nat)
    requires Charts(d, m) && q <= |d.s| && m.between[q]
    ensures var c, j := Skip(d.s, q), m.no[q];
            && m.between[c] && m.no[c] == j
            && (c == |d.s| ==> j >= |d.k|) && (c < |d.s| ==> j < |d.k| && S2.Matches(d.s[c], d.k[j]))
  {
    var c := Skip(d.s, q);
    assert Between(d.s, q) && m.no[q] == No(d.s, q);
    SkipArrives(d, q);
    assert Between(d.s, c) && m.no[c] == No(d.s, c);
    if c < |d.s| { S2.ByteOfKind(d.s, c); }
  }

  /** The first of a list does not agree, so the list does not. */
  lemma FirstParts<A, T>(m: Chart, i: nat, first: Option<Read<A>>, all: Option<Read<T>>)
    requires first.Some? ==> !All(m.strict, i, first.value.end)
    requires all.Some? ==> first.Some? && first.value.end <= all.value.end
    ensures all.Some? ==> !All(m.strict, i, all.value.end)
  {}

  /** Up to `q` all agrees, and what stands behind is one more token. */
  lemma LastAgrees<A, T>(m: Chart, i: nat, x: Read<A>, first: Option<Read<A>>, c: nat, v: T,
                                 text: Option<Read<T>>, all: Option<Read<T>>)
    requires Agrees(m, i, Some(x), first) && c + 1 < |m.between|
    requires var j := m.no[x.end];
             m.between[c + 1] && m.no[c + 1] == j + 1 && j < |m.strict| == |m.fits| && m.strict[j] && m.fits[j]
    requires text == Some(Read(v, c + 1)) && all == if first.Some? then Some(Read(v, m.no[x.end] + 1)) else None
    ensures Agrees(m, i, text, all)
  {
    if All(m.fits, i, m.no[x.end] + 1) { assert All(m.fits, i, m.no[x.end]); }
  }

  function ByteAt(s: seq<byte>, c: nat): Option<byte> {
    if c < |s| then Some(s[c]) else None
  }

  /** A list of which `x` is the first, by the byte at `c` behind it. */
  function ListText<T>(next: Option<byte>, close: byte, c: nat, x: Read<T>, rest: Option<Read<seq<T>>>): Option<Read<seq<T>>> {
    if next == Some(close) then Some(Read([x.value], c + 1))
    else if next == Some(COMMA) then Also(x.value, rest)
    else None
  }

  predicate Closes(close: byte, kind: Kind) {
    (close == RBRACKET && kind == EndArray) || (close == RBRACE && kind == EndObject)
  }

  /** The byte behind `x` and the token there say the same about how the list goes on. */
  ghost predicate GoesOn<T>(m: Chart, x: Read<T>, next: Option<byte>, kind: Option<Kind>, c: nat) {
    && x.end < |m.no| == |m.between| && |m.strict| == |m.fits|
    && (next.None? ==> kind.None?) && (next.Some? ==> kind.Some? && S2.Matches(next.value, kind.value))
    && (next.Some? && IsStructural(next.value) ==>
          var j := m.no[x.end];
          c + 1 < |m.between| && m.between[c + 1] && m.no[c + 1] == j + 1 && j < |m.strict| && m.strict[j] && m.fits[j])
  }

  lemma ListJoins<T>(m: Chart, i: nat, x: Read<T>, first: Option<Read<T>>, next: Option<byte>, kind: Option<Kind>, c: nat,
                     close: byte, closeKind: Kind, elems: seq<Option<Read<seq<T>>>>, text: Option<Read<seq<T>>>,
                     seenElems: seq<Option<Read<seq<T>>>>, all: Option<Read<seq<T>>>)
    requires Agrees(m, i, Some(x), first)
    requires Listed(m, i, x, first, next, kind, c, close, closeKind, elems, text, seenElems, all)
    requires next == Some(COMMA) ==> Agrees(m, m.no[c + 1], elems[c + 1], seenElems[m.no[c + 1]])
    ensures Agrees(m, i, text, all)
  {
    var j := m.no[x.end];
    if next == Some(close) {
      LastAgrees(m, i, x, first, c, [x.value], text, all);
    } else if next == Some(COMMA) {
      MoreAgree(m, i, x, first, x.value, elems[c + 1], seenElems[j + 1], text, all);
    }
  }

  lemma MoreAgree<A, T>(m: Chart, i: nat, x: Read<A>, first: Option<Read<A>>, v: T,
                        r: Option<Read<seq<T>>>, rest: Option<Read<seq<T>>>,
                        text: Option<Read<seq<T>>>, all: Option<Read<seq<T>>>)
    requires Agrees(m, i, Some(x), first)
    requires var j := m.no[x.end];
             j < |m.strict| == |m.fits| && m.strict[j] && m.fits[j] && Agrees(m, j + 1, r, rest)
    requires text == Also(v, r) && all == if first.Some? then Also(v, rest) else None
    ensures Agrees(m, i, text, all)
  {
    var j := m.no[x.end];
    if r.Some? {
      var e := m.no[r.value.end];
      assert All(m.fits, i, e) ==> All(m.fits, i, j) && All(m.fits, j + 1, e);
    } else if rest.Some? {
      assert !All(m.strict, i, rest.value.end);
    }
  }

  /** Both readings look at the same byte and token behind `x`. */
  lemma BothGoOn<T>(d: Doc, m: Chart, x: Read<T>)
    requires Charts(d, m) && x.end <= |d.s| && m.between[x.end]
    ensures var c := Skip(d.s, x.end); GoesOn(m, x, ByteAt(d.s, c), KindAt(d.k, m.no[x.end]), c)
  {
    var c := Skip(d.s, x.end);
    NextKind(d, m, x.end);
    if c < |d.s| && IsStructural(d.s[c]) { NextPunctuation(d, m, x.end); }
  }

  // ----- arrays

  /** A value that nothing ends is followed by neither a comma nor a closing bracket. */
  lemma NotEnded(s: seq<byte>, r: Option<Read<Value>>)
    requires r.Some? && r.value.end <= |s| && Ended(s, r).None?
    ensures Skip(s, r.value.end) < |s| && !IsStructural(s[Skip(s, r.value.end)])
  {}

  /** A list by its first item, if that is read, and the token behind it. */
  function FirstThen<T>(kind: Option<Kind>, close: Kind, first: Option<Read<T>>, rest: Option<Read<seq<T>>>)
    : Option<Read<seq<T>>>
  {
    match first
    case None => None
    case Some(v) => ListSeen(kind, close, v, rest)
  }

  function EntryAt<T>(seen: seq<Option<T>>, j: nat): Option<T> {
    if j < |seen| then seen[j] else None
  }

  /** What is behind an element, by its byte and by its token. */
  ghost predicate Listed<T>(m: Chart, i: nat, x: Read<T>, first: Option<Read<T>>, next: Option<byte>, kind: Option<Kind>, c: nat,
                            close: byte, closeKind: Kind, elems: seq<Option<Read<seq<T>>>>, text: Option<Read<seq<T>>>,
                            seenElems: seq<Option<Read<seq<T>>>>, all: Option<Read<seq<T>>>)
  {
    && GoesOn(m, x, next, kind, c) && Closes(close, closeKind)
    && (next == Some(COMMA) ==> c + 1 < |elems| && m.no[x.end] + 1 < |seenElems|)
    && text == ListText(next, close, c, x, if next == Some(COMMA) then elems[c + 1] else None)
    && all == FirstThen(kind, closeKind, first, EntryAt(seenElems, m.no[x.end] + 1))
  }

  lemma {:induction false} ElemsAgree(d: Doc, m: Chart, p: nat)
    requires Charts(d, m) && p <= |d.s| && m.between[p] && m.no[p] < |d.k| + 2
    ensures Agrees(m, m.no[p], m.elems[p], m.seenElems[m.no[p]])
    decreases |d.s| - p, 3
  {
    var i := m.no[p];
    var r, first, next, kind, c := ElemHead(d, m, p);
    if r.None? {
      FirstParts(m, i, first, m.seenElems[i]);
    } else {
      var x := r.value;
      if next == Some(COMMA) { ElemsAgree(d, m, c + 1); }
      ListJoins(m, i, x, first, next, kind, c, RBRACKET, EndArray, m.elems, m.elems[p], m.seenElems, m.seenElems[i]);
    }
  }

  /** The first element, and what stands behind it. */
  lemma {:induction false} ElemHead(d: Doc, m: Chart, p: nat)
    returns (r: Option<Read<Value>>, first: Option<Read<Value>>, next: Option<byte>, kind: Option<Kind>, c: nat)
    requires Charts(d, m) && p <= |d.s| && m.between[p] && m.no[p] < |d.k| + 2
    ensures var i, text, all := m.no[p], m.elems[p], m.seenElems[m.no[p]];
            && Agrees(m, i, r, first)
            && (r.None? ==> text.None? && (all.Some? ==> first.Some? && first.value.end <= all.value.end))
            && (r.Some? ==> p < c + 1 && Listed(m, i, r.value, first, next, kind, c, RBRACKET, EndArray,
                                                m.elems, text, m.seenElems, all))
    decreases |d.s| - p, 2
  {
    var i, b := m.no[p], Skip(d.s, p);
    NextKind(d, m, p);
    ValueAgrees(d, m, b);
    r, first := Ended(d.s, ValueText(d.s, b)), Seen(d, i);
    next, kind, c := None, None, 0;
    if r.None? {
      ElemsStop(d, m, p, i);
    } else {
      c := Skip(d.s, r.value.end);
      next, kind := ByteAt(d.s, c), KindAt(d.k, m.no[r.value.end]);
      ElemsGo(d, m, p, i, r.value, first, c);
    }
  }

  lemma ElemsStop(d: Doc, m: Chart, p: nat, i: nat)
    requires Charts(d, m) && p <= |d.s| && Ended(d.s, ValueText(d.s, Skip(d.s, p))).None? && i < |d.k| + 2
    ensures m.elems[p].None?
    ensures m.seenElems[i].Some? ==> Seen(d, i).Some? && Seen(d, i).value.end <= m.seenElems[i].value.end
  {
    ElemNotEnded(d, m, p);
    SeenElemsBehind(d, i);
  }

  lemma ElemsGo(d: Doc, m: Chart, p: nat, i: nat, x: Read<Value>, first: Option<Read<Value>>, c: nat)
    requires Charts(d, m) && p <= |d.s| && ValueText(d.s, Skip(d.s, p)) == Some(x) && i < |d.k| + 2 && first == Seen(d, i)
    requires x.end <= |d.s| && m.between[x.end] && (first.Some? ==> first.value.end == m.no[x.end]) && c == Skip(d.s, x.end)
    ensures Listed(m, i, x, first, ByteAt(d.s, c), KindAt(d.k, m.no[x.end]), c, RBRACKET, EndArray,
                   m.elems, m.elems[p], m.seenElems, m.seenElems[i])
  {
    ElemsSeenOnChart(d, m, i, m.no[x.end], first);
    ElemListed(d, m, p, i, x, first, c);
  }

  lemma ElemNotEnded(d: Doc, m: Chart, p: nat)
    requires Charts(d, m) && p <= |d.s| && Ended(d.s, ValueText(d.s, Skip(d.s, p))).None?
    ensures m.elems[p].None?
  {
    var r := ValueText(d.s, Skip(d.s, p));
    if r.Some? { NotEnded(d.s, r); }
    assert ElemsText(d.s, p).None?;
  }

  lemma ElemListed(d: Doc, m: Chart, p: nat, i: nat, x: Read<Value>, first: Option<Read<Value>>, c: nat)
    requires Charts(d, m) && p <= |d.s| && ValueText(d.s, Skip(d.s, p)) == Some(x) && i < |d.k| + 2
    requires x.end <= |d.s| && m.between[x.end] && c == Skip(d.s, x.end)
    requires var j := m.no[x.end];
             m.seenElems[i] == FirstThen(KindAt(d.k, j), EndArray, first, EntryAt(m.seenElems, j + 1))
    ensures Listed(m, i, x, first, ByteAt(d.s, c), KindAt(d.k, m.no[x.end]), c, RBRACKET, EndArray,
                   m.elems, m.elems[p], m.seenElems, m.seenElems[i])
  {
    BothGoOn(d, m, x);
    ElemsTextOnChart(d, m, p, x, c);
  }

  lemma ElemsTextOnChart(d: Doc, m: Chart, p: nat, x: Read<Value>, c: nat)
    requires Charts(d, m) && p <= |d.s| && ValueText(d.s, Skip(d.s, p)) == Some(x) && c == Skip(d.s, x.end)
    ensures var next := ByteAt(d.s, c);
            m.elems[p] == ListText(next, RBRACKET, c, x, if next == Some(COMMA) then m.elems[c + 1] else None)
  {
    ChartElems(d, m, p);
    if c < |d.s| { ChartElems(d, m, c + 1); }
    ElemsTextListed(d.s, p, x, c, m.elems);
  }

  lemma ElemsSeenOnChart(d: Doc, m: Chart, i: nat, j: nat, first: Option<Read<Value>>)
    requires Charts(d, m) && i < |m.seenElems| && first == Seen(d, i) && (first.Some? ==> first.value.end == j)
    ensures m.seenElems[i] == FirstThen(KindAt(d.k, j), EndArray, first, EntryAt(m.seenElems, j + 1))
  {
    ElemsSeenAt(d, i, j, first);
  }

  lemma ChartElems(d: Doc, m: Chart, p: nat)
    requires Charts(d, m) && p <= |d.s|
    ensures m.elems[p] == ElemsText(d.s, p)
  {}

  lemma ElemsTextListed(s: seq<byte>, p: nat, x: Read<Value>, c: nat, elems: seq<Option<Read<seq<Value>>>>)
    requires p <= |s| < |elems| && ValueText(s, Skip(s, p)) == Some(x) && c == Skip(s, x.end)
    requires elems[p] == ElemsText(s, p) && (c < |s| ==> elems[c + 1] == ElemsText(s, c + 1))
    ensures var next := ByteAt(s, c);
            elems[p] == ListText(next, RBRACKET, c, x, if next == Some(COMMA) then elems[c + 1] else None)
  {
    ElemsTextStep(s, p, x);
  }

  lemma SeenElemsBehind(d: Doc, i: nat)
    ensures SeenElems(d, i).Some? ==> Seen(d, i).Some? && Seen(d, i).value.end <= SeenElems(d, i).value.end
  {}

  lemma ElemsTextStep(s: seq<byte>, p: nat, x: Read<Value>)
    requires p <= |s| && ValueText(s, Skip(s, p)) == Some(x)
    ensures var c := Skip(s, x.end);
            ElemsText(s, p)
            == ListText(ByteAt(s, c), RBRACKET, c, x, if ByteAt(s, c) == Some(COMMA) then ElemsText(s, c + 1) else None)
  {}

  lemma ElemsSeenAt(d: Doc, i: nat, j: nat, first: Option<Read<Value>>)
    requires first == Seen(d, i) && (first.Some? ==> first.value.end == j)
    ensures SeenElems(d, i) == FirstThen(KindAt(d.k, j), EndArray, first, SeenElems(d, j + 1))
  {
    SeenElemsStep(d, i);
  }

  // ----- objects

  /** A name by its bytes and its tokens. */
  lemma NameAgrees(d: Doc, m: Chart, p: nat)
    requires Charts(d, m) && p <= |d.s| && m.between[p]
    ensures Agrees(m, m.no[p], NameColon(d.s, p), SeenName(d, m.no[p]))
  {
    var i, b := m.no[p], Skip(d.s, p);
    NextKind(d, m, p);
    if b < |d.s| && d.s[b] == QUOTE {
      TokenAt(d, m, b);
      StringAgrees(d, m, b);
      ColonAgrees(d, m, p, i, StringAt(d.s, b), Behind(StringOf(d.s, d.Pos(i)), i + 1));
    }
  }

  lemma ColonAgrees(d: Doc, m: Chart, p: nat, i: nat, r: Option<Read<seq<byte>>>, first: Option<Read<seq<byte>>>)
    requires Charts(d, m) && p <= |d.s| && Skip(d.s, p) < |d.s| && i < |d.k| && d.k[i] == Str
    requires r == StringAt(d.s, Skip(d.s, p)) && first == Behind(StringOf(d.s, d.Pos(i)), i + 1)
    requires Agrees(m, i, r, first) && (r.Some? ==> m.no[r.value.end] == i + 1)
    ensures Agrees(m, i, NameColon(d.s, p), SeenName(d, i))
  {
    if r.Some? {
      ColonRead(d, m, p, i, r.value, first);
    } else {
      FirstParts(m, i, first, SeenName(d, i));
    }
  }

  lemma ColonRead(d: Doc, m: Chart, p: nat, i: nat, x: Read<seq<byte>>, first: Option<Read<seq<byte>>>)
    requires Charts(d, m) && p <= |d.s| && Skip(d.s, p) < |d.s| && i < |d.k| && d.k[i] == Str
    requires StringAt(d.s, Skip(d.s, p)) == Some(x) && first == Behind(StringOf(d.s, d.Pos(i)), i + 1)
    requires Agrees(m, i, Some(x), first) && m.no[x.end] == i + 1
    ensures Agrees(m, i, NameColon(d.s, p), SeenName(d, i))
  {
    var c := Skip(d.s, x.end);
    NextKind(d, m, x.end);
    if c < |d.s| && d.s[c] == COLON {
      NextPunctuation(d, m, x.end);
      LastAgrees(m, i, x, first, c, x.value, NameColon(d.s, p), SeenName(d, i));
    }
  }

  /** A member counts as read only if something ends its value. */
  function EndedMember(s: seq<byte>, p: nat): Option<Read<Member>>
    requires p <= |s|
  {
    match NameColon(s, p)
    case None => None
    case Some(key) => Named(key.value, Ended(s, ValueText(s, Skip(s, key.end))))
  }

  lemma {:induction false} MemberAgrees(d: Doc, m: Chart, p: nat)
    requires Charts(d, m) && p <= |d.s| && m.between[p]
    ensures Agrees(m, m.no[p], EndedMember(d.s, p), SeenMember(d, m.no[p]))
    decreases |d.s| - p, 0
  {
    var i := m.no[p];
    NameAgrees(d, m, p);
    if NameColon(d.s, p).Some? {
      var key := NameColon(d.s, p).value;
      var b := Skip(d.s, key.end);
      NextKind(d, m, key.end);
      ValueAgrees(d, m, b);
      MemberJoins(d, m, p, i, key, Ended(d.s, ValueText(d.s, b)), Seen(d, m.no[key.end]));
    } else if SeenMember(d, i).Some? {
      SeenMemberBehind(d, i);
      FirstParts(m, i, SeenName(d, i), SeenMember(d, i));
    }
  }

  lemma MemberJoins(d: Doc, m: Chart, p: nat, i: nat, key: Read<seq<byte>>, r: Option<Read<Value>>, second: Option<Read<Value>>)
    requires p <= |d.s| && NameColon(d.s, p) == Some(key) && Agrees(m, i, Some(key), SeenName(d, i))
    requires r == Ended(d.s, ValueText(d.s, Skip(d.s, key.end))) && second == Seen(d, m.no[key.end])
    requires Agrees(m, m.no[key.end], r, second)
    ensures Agrees(m, i, EndedMember(d.s, p), SeenMember(d, i))
  {
    SeenMemberIs(d, i);
    ThenAgrees(m, i, key, SeenName(d, i), r, second, EndedMember(d.s, p), SeenMember(d, i));
  }

  lemma SeenMemberBehind(d: Doc, i: nat)
    ensures SeenMember(d, i).Some? ==> SeenName(d, i).Some? && SeenName(d, i).value.end <= SeenMember(d, i).value.end
  {}

  /** A name and then a value. */
  lemma ThenAgrees(m: Chart, i: nat, key: Read<seq<byte>>, first: Option<Read<seq<byte>>>,
                   r: Option<Read<Value>>, second: Option<Read<Value>>,
                   text: Option<Read<Member>>, both: Option<Read<Member>>)
    requires Agrees(m, i, Some(key), first) && Agrees(m, m.no[key.end], r, second)
    requires text == Named(key.value, r)
    requires both == if first.Some? then Named(key.value, second) else None
    ensures Agrees(m, i, text, both)
  {
    var j := m.no[key.end];
    if r.Some? {
      var e := m.no[r.value.end];
      assert All(m.fits, i, e) ==> All(m.fits, i, j) && All(m.fits, j, e);
    } else if second.Some? {
      assert !All(m.strict, i, second.value.end);
    }
  }

  lemma {:induction false} MembersAgree(d: Doc, m: Chart, p: nat)
    requires Charts(d, m) && p <= |d.s| && m.between[p] && m.no[p] < |d.k| + 2
    ensures Agrees(m, m.no[p], m.members[p], m.seenMembers[m.no[p]])
    decreases |d.s| - p, 3
  {
    var i := m.no[p];
    var r, first, next, kind, c := MembersHead(d, m, p);
    if r.None? {
      FirstParts(m, i, first, m.seenMembers[i]);
    } else {
      var x := r.value;
      if next == Some(COMMA) { MembersAgree(d, m, c + 1); }
      ListJoins(m, i, x, first, next, kind, c, RBRACE, EndObject, m.members, m.members[p], m.seenMembers, m.seenMembers[i]);
    }
  }

  /** The first member, and what stands behind it. */
  lemma {:induction false} MembersHead(d: Doc, m: Chart, p: nat)
    returns (r: Option<Read<Member>>, first: Option<Read<Member>>, next: Option<byte>, kind: Option<Kind>, c: nat)
    requires Charts(d, m) && p <= |d.s| && m.between[p] && m.no[p] < |d.k| + 2
    ensures var i, text, all := m.no[p], m.members[p], m.seenMembers[m.no[p]];
            && Agrees(m, i, r, first)
            && (r.None? ==> text.None? && (all.Some? ==> first.Some? && first.value.end <= all.value.end))
            && (r.Some? ==> p < c + 1 && Listed(m, i, r.value, first, next, kind, c, RBRACE, EndObject,
                                                m.members, text, m.seenMembers, all))
    decreases |d.s| - p, 2
  {
    var i := m.no[p];
    MemberAgrees(d, m, p);
    r, first := EndedMember(d.s, p), SeenMember(d, i);
    next, kind, c := None, None, 0;
    if r.None? {
      MembersStop(d, m, p, i);
    } else {
      c := Skip(d.s, r.value.end);
      next, kind := ByteAt(d.s, c), KindAt(d.k, m.no[r.value.end]);
      MemberIsEnded(d.s, p);
      MembersGo(d, m, p, i, r.value, first, c);
    }
  }

  lemma MembersStop(d: Doc, m: Chart, p: nat, i: nat)
    requires Charts(d, m) && p <= |d.s| && EndedMember(d.s, p).None? && i < |d.k| + 2
    ensures m.members[p].None?
    ensures m.seenMembers[i].Some? ==> SeenMember(d, i).Some? && SeenMember(d, i).value.end <= m.seenMembers[i].value.end
  {
    MemberNotEnded(d.s, p);
    SeenMembersBehind(d, i);
  }

  lemma MembersGo(d: Doc, m: Chart, p: nat, i: nat, x: Read<Member>, first: Option<Read<Member>>, c: nat)
    requires Charts(d, m) && p <= |d.s| && MemberText(d.s, p) == Some(x) && i < |d.k| + 2 && first == SeenMember(d, i)
    requires x.end <= |d.s| && m.between[x.end] && (first.Some? ==> first.value.end == m.no[x.end]) && c == Skip(d.s, x.end)
    ensures Listed(m, i, x, first, ByteAt(d.s, c), KindAt(d.k, m.no[x.end]), c, RBRACE, EndObject,
                   m.members, m.members[p], m.seenMembers, m.seenMembers[i])
  {
    MembersSeenOnChart(d, m, i, m.no[x.end], first);
    MemberListed(d, m, p, i, x, first, c);
  }

  lemma MemberListed(d: Doc, m: Chart, p: nat, i: nat, x: Read<Member>, first: Option<Read<Member>>, c: nat)
    requires Charts(d, m) && p <= |d.s| && MemberText(d.s, p) == Some(x) && i < |d.k| + 2
    requires x.end <= |d.s| && m.between[x.end] && c == Skip(d.s, x.end)
    requires var j := m.no[x.end];
             m.seenMembers[i] == FirstThen(KindAt(d.k, j), EndObject, first, EntryAt(m.seenMembers, j + 1))
    ensures Listed(m, i, x, first, ByteAt(d.s, c), KindAt(d.k, m.no[x.end]), c, RBRACE, EndObject,
                   m.members, m.members[p], m.seenMembers, m.seenMembers[i])
  {
    BothGoOn(d, m, x);
    MembersTextOnChart(d, m, p, x, c);
  }

  lemma MembersTextOnChart(d: Doc, m: Chart, p: nat, x: Read<Member>, c: nat)
    requires Charts(d, m) && p <= |d.s| && MemberText(d.s, p) == Some(x) && c == Skip(d.s, x.end)
    ensures var next := ByteAt(d.s, c);
            m.members[p] == ListText(next, RBRACE, c, x, if next == Some(COMMA) then m.members[c + 1] else None)
  {
    ChartMembers(d, m, p);
    MembersBehindOnChart(d, m, c);
    MembersTextStep(d.s, p, x);
  }

  lemma MembersSeenOnChart(d: Doc, m: Chart, i: nat, j: nat, first: Option<Read<Member>>)
    requires Charts(d, m) && i < |m.seenMembers| && first == SeenMember(d, i) && (first.Some? ==> first.value.end == j)
    ensures m.seenMembers[i] == FirstThen(KindAt(d.k, j), EndObject, first, EntryAt(m.seenMembers, j + 1))
  {
    MembersSeenAt(d, i, j, first);
  }

  lemma ChartMembers(d: Doc, m: Chart, p: nat)
    requires Charts(d, m) && p <= |d.s|
    ensures m.members[p] == MembersText(d.s, p)
  {}

  /** The members behind a comma at `c`. */
  function MembersBehind(s: seq<byte>, c: nat): Option<Read<seq<Member>>> {
    if ByteAt(s, c) == Some(COMMA) then MembersText(s, c + 1) else None
  }

  lemma MembersBehindOnChart(d: Doc, m: Chart, c: nat)
    requires Charts(d, m)
    ensures MembersBehind(d.s, c) == if ByteAt(d.s, c) == Some(COMMA) then m.members[c + 1] else None
  {
    if c < |d.s| { ChartMembers(d, m, c + 1); }
  }

  lemma MembersTextStep(s: seq<byte>, p: nat, x: Read<Member>)
    requires p <= |s| && MemberText(s, p) == Some(x)
    ensures var c := Skip(s, x.end);
            MembersText(s, p) == ListText(ByteAt(s, c), RBRACE, c, x, MembersBehind(s, c))
  {}

  lemma MemberNotEnded(s: seq<byte>, p: nat)
    requires p <= |s| && EndedMember(s, p).None?
    ensures MembersText(s, p).None?
  {
    if MemberText(s, p).Some? { NotEnded(s, ValueText(s, Skip(s, NameColon(s, p).value.end))); }
  }

  lemma MemberIsEnded(s: seq<byte>, p: nat)
    requires p <= |s| && EndedMember(s, p).Some?
    ensures MemberText(s, p) == EndedMember(s, p)
  {}

  lemma SeenMembersBehind(d: Doc, i: nat)
    ensures SeenMembers(d, i).Some? ==> SeenMember(d, i).Some? && SeenMember(d, i).value.end <= SeenMembers(d, i).value.end
  {
    SeenMembersStep(d, i);
    if SeenMembers(d, i).Some? { MembersEnd(d, SeenMember(d, i).value.end + 1); }
  }

  lemma MembersEnd(d: Doc, i: nat)
    ensures SeenMembers(d, i).Some? ==> i < SeenMembers(d, i).value.end
  {}

  lemma MembersSeenAt(d: Doc, i: nat, j: nat, first: Option<Read<Member>>)
    requires first == SeenMember(d, i) && (first.Some? ==> first.value.end == j)
    ensures SeenMembers(d, i) == FirstThen(KindAt(d.k, j), EndObject, first, SeenMembers(d, j + 1))
  {
    SeenMembersStep(d, i);
  }

  // ----- values

  /** The token at a byte that is no white space. */
  lemma TokenAt(d: Doc, m: Chart, p: nat)
    requires Charts(d, m) && p < |d.s| && m.between[p] && !IsBlank(d.s[p])
    ensures Outside(d.s, p) && (IsStructural(d.s[p]) || Follows(d.s, p)) && m.no[p] == No(d.s, p)
    ensures TokenHere(d, p, S2.KindAt(d.s, p)) && S2.Matches(d.s[p], S2.KindAt(d.s, p))
  {
    assert Between(d.s, p);
    SkipArrives(d, p);
    S2.ByteOfKind(d.s, p);
  }

  /** Behind an opening bracket the first token of its contents may start. */
  lemma OpeningRead(d: Doc, m: Chart, p: nat)
    requires Charts(d, m) && p < |d.s| && m.between[p] && IsStructural(d.s[p])
    ensures m.between[p + 1] && m.no[p + 1] == m.no[p] + 1 && m.no[p] < |d.k|
    ensures m.strict[m.no[p]] && m.fits[m.no[p]]
  {
    NextPunctuation(d, m, p);
  }

  /** An empty array or object. */
  lemma EmptyAgrees<T>(d: Doc, m: Chart, p: nat, v: T)
    requires Charts(d, m) && p < |d.s| && m.between[p] && IsStructural(d.s[p])
    requires var c := Skip(d.s, p + 1); c < |d.s| && IsStructural(d.s[c])
    ensures Agrees(m, m.no[p], Some(Read(v, Skip(d.s, p + 1) + 1)), Some(Read(v, m.no[p] + 2)))
  {
    OpeningRead(d, m, p);
    NextPunctuation(d, m, p + 1);
  }

  /** A list behind its opening bracket. */
  lemma OpenedAgrees<T>(m: Chart, i: nat, f: T -> Value, r: Option<Read<T>>, seen: Option<Read<T>>)
    requires i < |m.strict| == |m.fits| && m.strict[i] && m.fits[i] && Agrees(m, i + 1, r, seen)
    ensures Agrees(m, i, Wrap(r, f), Wrap(seen, f))
  {
    if r.Some? {
      var e := m.no[r.value.end];
      assert All(m.fits, i, e) ==> All(m.fits, i + 1, e);
    } else if seen.Some? {
      assert !All(m.strict, i, seen.value.end);
    }
  }

  lemma {:induction false} ArrayAgrees(d: Doc, m: Chart, p: nat)
    requires Charts(d, m) && p < |d.s| && m.between[p] && d.s[p] == LBRACKET && m.no[p] < |d.k| && d.k[m.no[p]] == BeginArray
    ensures Agrees(m, m.no[p], ValueText(d.s, p), Seen(d, m.no[p]))
    decreases |d.s| - p, 0
  {
    var i, c := m.no[p], Skip(d.s, p + 1);
    SeenStep(d, i);
    OpeningRead(d, m, p);
    NextKind(d, m, p + 1);
    if c < |d.s| && d.s[c] == RBRACKET {
      EmptyAgrees(d, m, p, Array([]));
    } else {
      ElemsAgree(d, m, p + 1);
      OpenedAgrees(m, i, AnArray, ElemsText(d.s, p + 1), SeenElems(d, i + 1));
    }
  }

  lemma {:induction false} ObjectAgrees(d: Doc, m: Chart, p: nat)
    requires Charts(d, m) && p < |d.s| && m.between[p] && d.s[p] == LBRACE && m.no[p] < |d.k| && d.k[m.no[p]] == BeginObject
    ensures Agrees(m, m.no[p], ValueText(d.s, p), Seen(d, m.no[p]))
    decreases |d.s| - p, 0
  {
    var i, c := m.no[p], Skip(d.s, p + 1);
    SeenStep(d, i);
    OpeningRead(d, m, p);
    NextKind(d, m, p + 1);
    if c < |d.s| && d.s[c] == RBRACE {
      EmptyAgrees(d, m, p, Object([]));
    } else {
      MembersAgree(d, m, p + 1);
      OpenedAgrees(m, i, AnObject, MembersText(d.s, p + 1), SeenMembers(d, i + 1));
    }
  }

  lemma StringValueAgrees(d: Doc, m: Chart, p: nat)
    requires Charts(d, m) && p < |d.s| && m.between[p] && d.s[p] == QUOTE
    ensures Agrees(m, m.no[p], ValueText(d.s, p), Seen(d, m.no[p]))
  {
    TokenAt(d, m, p);
    StringAgrees(d, m, p);
    SeenStep(d, m.no[p]);
  }

  /** Strings, arrays and objects end by themselves. */
  lemma WholeEnded(s: seq<byte>, p: nat)
    requires p < |s| && (s[p] == QUOTE || s[p] == LBRACKET || s[p] == LBRACE)
    ensures Ended(s, ValueText(s, p)) == ValueText(s, p)
  {}

  lemma NoValue(d: Doc, i: nat)
    requires i < |d.k| ==> d.k[i] != BeginArray && d.k[i] != BeginObject && d.k[i] != Str && d.k[i] != Prim
    ensures Seen(d, i).None?
  {
    SeenStep(d, i);
  }

  lemma NoValueText(s: seq<byte>, p: nat)
    requires p < |s| && IsStructural(s[p]) && s[p] != LBRACKET && s[p] != LBRACE
    ensures ValueText(s, p).None?
  {
    NameFirst(s, p);
  }

  lemma NameFirst(s: seq<byte>, p: nat)
    requires p < |s|
    ensures NameText(s, p).Some? ==> !IsStructural(s[p])
  {
    if NameText(s, p).Some? {
      var w := s[p..NameText(s, p).value.end];
      assert w[0] == s[p];
    }
  }

  /** A value by its bytes and its tokens. */
  lemma {:induction false} ValueAgrees(d: Doc, m: Chart, p: nat)
    requires Charts(d, m) && p <= |d.s| && m.between[p] && (p < |d.s| ==> !IsBlank(d.s[p]))
    ensures Agrees(m, m.no[p], Ended(d.s, ValueText(d.s, p)), Seen(d, m.no[p]))
    decreases |d.s| - p, 1
  {
    NextKind(d, m, p);
    if p == |d.s| {
      NoValue(d, m.no[p]);
    } else if d.s[p] == QUOTE || d.s[p] == LBRACKET || d.s[p] == LBRACE {
      WholeEnded(d.s, p);
      if d.s[p] == QUOTE {
        StringValueAgrees(d, m, p);
      } else if d.s[p] == LBRACKET {
        ArrayAgrees(d, m, p);
      } else {
        ObjectAgrees(d, m, p);
      }
    } else {
      TokenAt(d, m, p);
      if IsStructural(d.s[p]) {
        NoValue(d, m.no[p]);
        NoValueText(d.s, p);
      } else {
        PrimAgrees(d, m, p);
      }
    }
  }

  // ----- what the parser accepts holds no number it refuses

  ghost predicate FitUpTo(d: Doc, i: nat, j: nat) {
    i <= j <= |d.k| && forall x :: i <= x < j ==> TokenFits(d, x)
  }

  lemma PrimFits(d: Doc, i: nat)
    requires i < |d.k| && Seen(d, i).Some? && d.k[i] == Prim
    ensures TokenFits(d, i)
  {
    SeenStep(d, i);
    var p := d.Pos(i);
    if p < |d.s| && (d.s[p] == MINUS || IsDigit(d.s[p])) { NumberSeen(d.s, p); }
  }

  lemma FitOne(d: Doc, i: nat)
    requires i < |d.k| && (d.k[i] == Prim ==> TokenFits(d, i))
    ensures FitUpTo(d, i, i + 1)
  {}

  lemma FitJoin(d: Doc, i: nat, j: nat, k: nat)
    requires FitUpTo(d, i, j) && FitUpTo(d, j, k)
    ensures FitUpTo(d, i, k)
  {}

  lemma {:induction false} SeenFits(d: Doc, i: nat)
    ensures Seen(d, i).Some? ==> FitUpTo(d, i, Seen(d, i).value.end)
    decreases if i <= |d.k| then |d.k| - i else 0, 0
  {
    if Seen(d, i).Some? {
      SeenStep(d, i);
      if d.k[i] == Prim { PrimFits(d, i); }
      FitOne(d, i);
      if d.k[i] == BeginArray { ArrayFits(d, i); }
      if d.k[i] == BeginObject { ObjectFits(d, i); }
    }
  }

  lemma {:induction false} ArrayFits(d: Doc, i: nat)
    requires i < |d.k| && d.k[i] == BeginArray && Seen(d, i).Some? && FitUpTo(d, i, i + 1)
    ensures FitUpTo(d, i, Seen(d, i).value.end)
    decreases |d.k| - i - 1, 2
  {
    SeenStep(d, i);
    if d.k[i + 1] == EndArray { FitOne(d, i + 1); } else { SeenElemsFit(d, i + 1); }
    FitJoin(d, i, i + 1, Seen(d, i).value.end);
  }

  lemma {:induction false} ObjectFits(d: Doc, i: nat)
    requires i < |d.k| && d.k[i] == BeginObject && Seen(d, i).Some? && FitUpTo(d, i, i + 1)
    ensures FitUpTo(d, i, Seen(d, i).value.end)
    decreases |d.k| - i - 1, 2
  {
    SeenStep(d, i);
    if d.k[i + 1] == EndObject { FitOne(d, i + 1); } else { SeenMembersFit(d, i + 1); }
    FitJoin(d, i, i + 1, Seen(d, i).value.end);
  }

  lemma {:induction false} SeenElemsFit(d: Doc, i: nat)
    ensures SeenElems(d, i).Some? ==> FitUpTo(d, i, SeenElems(d, i).value.end)
    decreases if i <= |d.k| then |d.k| - i else 0, 1
  {
    if SeenElems(d, i).Some? {
      SeenFits(d, i);
      SeenElemsStep(d, i);
      var j := Seen(d, i).value.end;
      FitOne(d, j);
      FitJoin(d, i, j, j + 1);
      if d.k[j] == ValueSeparator {
        SeenElemsFit(d, j + 1);
        FitJoin(d, i, j + 1, SeenElems(d, i).value.end);
      }
    }
  }

  lemma {:induction false} SeenMemberFits(d: Doc, i: nat)
    ensures SeenMember(d, i).Some? ==> FitUpTo(d, i, SeenMember(d, i).value.end)
    decreases if i <= |d.k| then |d.k| - i else 0, 0
  {
    if SeenMember(d, i).Some? {
      FitOne(d, i);
      FitOne(d, i + 1);
      FitJoin(d, i, i + 1, i + 2);
      SeenFits(d, i + 2);
      FitJoin(d, i, i + 2, SeenMember(d, i).value.end);
    }
  }

  lemma {:induction false} SeenMembersFit(d: Doc, i: nat)
    ensures SeenMembers(d, i).Some? ==> FitUpTo(d, i, SeenMembers(d, i).value.end)
    decreases if i <= |d.k| then |d.k| - i else 0, 1
  {
    if SeenMembers(d, i).Some? {
      SeenMemberFits(d, i);
      SeenMembersStep(d, i);
      var j := SeenMember(d, i).value.end;
      FitOne(d, j);
      FitJoin(d, i, j, j + 1);
      if d.k[j] == ValueSeparator {
        SeenMembersFit(d, j + 1);
        FitJoin(d, i, j + 1, SeenMembers(d, i).value.end);
      }
    }
  }

  // ----- whole inputs

  /** Every string has its surrogates in pairs and no control byte, and no NUL ends a number or name. */
  ghost predicate StrictText(s: seq<byte>) {
    var d := TokensOf(s);
    forall x :: 1 <= x < |d.k| ==> TokenStrict(d, x)
  }

  /** Every number is one the parser accepts. */
  ghost predicate FitsText(s: seq<byte>) {
    var d := TokensOf(s);
    forall x :: 1 <= x < |d.k| ==> TokenFits(d, x)
  }

  /** The start of the input is where the first token may start. */
  lemma StartAgrees(s: seq<byte>, m: Chart)
    requires m == ChartOf(TokensOf(s))
    ensures var d, b := TokensOf(s), Skip(s, 0);
            && Charts(d, m) && m.no[b] == 1 && Agrees(m, 1, Ended(s, ValueText(s, b)), Seen(d, 1))
  {
    var d, b := TokensOf(s), Skip(s, 0);
    assert Between(s, 0) && No(s, 0) == 1;
    NextKind(d, m, 0);
    ValueAgrees(d, m, b);
  }

  lemma ChartAll(d: Doc, m: Chart)
    requires Charts(d, m)
    ensures All(m.strict, 1, |d.k|) <==> forall x :: 1 <= x < |d.k| ==> TokenStrict(d, x)
    ensures All(m.fits, 1, |d.k|) <==> forall x :: 1 <= x < |d.k| ==> TokenFits(d, x)
  {
    assert forall x :: 1 <= x < |d.k| ==> m.strict[x] == TokenStrict(d, x);
    assert forall x :: 1 <= x < |d.k| ==> m.fits[x] == TokenFits(d, x);
  }

  /** The value that starts behind the first white space ends at the end of the input exactly if no token is left. */
  lemma EndsWhole(s: seq<byte>, m: Chart, q: nat)
    requires Charts(TokensOf(s), m) && q <= |s| && m.between[q]
    ensures Skip(s, q) == |s| <==> m.no[q] == |TokensOf(s).k|
    ensures Skip(s, q) == |s| ==> Outside(s, |s|)
  {
    var d := TokensOf(s);
    ChartsDoc(d, m);
    assert Between(s, q) && m.no[q] == No(s, q);
    SkipArrives(d, q);
  }

  /** JSON texts end in an ASCII byte, so for them the UTF-8 check has no exception. */
  lemma JsonUtf8(s: seq<byte>)
    requires Json(s).Some?
    ensures S1.Utf8Accepted(s) <==> WellFormed(s)
  {
    var p := Skip(s, 0);
    ValueEndsAscii(s, p);
    BlankOrBefore(s, ValueText(s, p).value.end);
    S1.Utf8AfterAscii(s);
  }

  /**
   Of what the parser accepts, exactly the strict texts are JSON texts by RFC 8259, and they have the value
   the parser returns.
   */
  lemma ParsedIsJson(s: seq<byte>)
    requires Parse(s).Some?
    ensures Json(s).Some? <==> StrictText(s)
    ensures Json(s).Some? ==> Json(s) == Parse(s) && WellFormed(s)
  {
    var d := TokensOf(s);
    var m := ChartOf(d);
    var r := ValueText(s, Skip(s, 0));
    ParseIsSeen(s);
    StartAgrees(s, m);
    ChartAll(d, m);
    if Ended(s, r).Some? {
      EndsWhole(s, m, r.value.end);
    } else if r.Some? {
      NotEnded(s, r);
    }
    if Json(s).Some? { JsonUtf8(s); }
  }

  /** Of the JSON texts, exactly those in UTF-8 whose numbers all fit are accepted, with their value. */
  lemma JsonIsParsed(s: seq<byte>)
    requires Json(s).Some?
    ensures Parse(s).Some? <==> WellFormed(s) && FitsText(s)
    ensures Parse(s).Some? ==> Parse(s) == Json(s)
  {
    JsonUtf8(s);
    if S1.Utf8Accepted(s) { JsonInUtf8IsParsed(s); }
  }

  /** Parser and standard agree on exactly these inputs, and then on the value. */
  lemma AgreeExactly(s: seq<byte>)
    ensures Parse(s).Some? && StrictText(s) <==> Json(s).Some? && WellFormed(s) && FitsText(s)
    ensures Parse(s).Some? && Json(s).Some? ==> Parse(s) == Json(s)
  {
    if Parse(s).Some? { ParsedIsJson(s); }
    if Json(s).Some? { JsonIsParsed(s); }
  }

  /** An accepted input is well-formed UTF-8 unless it fills its last block and ends unfinished. */
  lemma ParsedUtf8(s: seq<byte>)
    requires Parse(s).Some?
    ensures WellFormed(s) <==> !(|s| % 64 == 0 && S1.EndsUnfinished(s))
  {
    S1.Utf8Exact(s);
  }

  lemma JsonInUtf8IsParsed(s: seq<byte>)
    requires Json(s).Some? && S1.Utf8Accepted(s)
    ensures Parse(s).Some? <==> FitsText(s)
    ensures Parse(s).Some? ==> Parse(s) == Json(s)
  {
    var d := TokensOf(s);
    var m := ChartOf(d);
    var r := ValueText(s, Skip(s, 0));
    StartAgrees(s, m);
    ChartAll(d, m);
    assert Ended(s, r) == r;
    EndsWhole(s, m, r.value.end);
    IndexOfJson(s);
    ParseIsSeen(s);
    SeenFits(d, 1);
  }

  lemma IndexOfJson(s: seq<byte>)
    requires Outside(s, |s|) && |TokensOf(s).k| > 1 && S1.Utf8Accepted(s)
    ensures S1.StructuralIndex(s) == Ok(TokensOf(s).indexes)
  {
    ControlFreeExact(s, |s|);
  }

  /** A string token has its surrogates in pairs, and no NUL ends a number or name. */
  ghost predicate TokenPaired(d: Doc, x: nat)
    requires x < |d.k|
  {
    (d.k[x] == Str ==> SurrogatesPaired(d.s, d.Pos(x) + 1)) && (d.k[x] == Prim ==> !EndedByNul(d.s, d.Pos(x)))
  }

  /** In an input stage 1 accepts, that is all that strictness asks. */
  lemma StrictInAccepted(s: seq<byte>)
    requires S1.StructuralIndex(s).Ok?
    ensures var d := TokensOf(s); StrictText(s) <==> forall x :: 1 <= x < |d.k| ==> TokenPaired(d, x)
  {
    var d := TokensOf(s);
    forall x | 1 <= x < |d.k| ensures TokenStrict(d, x) <==> TokenPaired(d, x) {
      if d.k[x] == Str {
        TokensExact(s, |s|);
        assert d.Pos(x) == Tokens(s, |s|)[x - 1];
        S2.ByteOfKind(s, d.Pos(x));
        T.TokenStringIsRfc(s, x);
      }
    }
  }

  /** What stands behind a NUL that ends a number is not looked at. */
  lemma BehindNul(s: seq<byte>)
    requires |s| >= 2 && s[0] == 0x31 && s[1] == 0 && (forall j :: 0 <= j < |s| ==> IsBare(s[j])) && S1.Utf8Accepted(s)
    ensures Parse(s) == Some(I64(1)) && Json(s).None?
  {
    var d := TokensOf(s);
    BareRun(d, 0, |s|);
    assert Tokens(s, |s|) == [0];
    NoStringsNoControl(s, |s|);
    OneRead(s);
    assert d.k[1] == Prim;
    SeenStep(d, 1);
    NumberSeen(s, 0);
    ParseIsSeen(s);
  }

  lemma {:induction false} NoStringsNoControl(s: seq<byte>, n: nat)
    requires n <= |s| && forall j :: 0 <= j < n ==> IsBare(s[j])
    ensures !InString(s, n) && !HasControlInString(s, n)
  {
    if n > 0 { NoStringsNoControl(s, n - 1); }
  }

  lemma OneRead(s: seq<byte>)
    requires |s| >= 2 && s[0] == 0x31 && s[1] == 0
    ensures NumberText(s, 0) == Some(Read(I64(1), 1)) && NumberFits(s, 0)
  {
    assert s[0..] == s;
    N.DigitsEndIs(s, 1, 1);
    assert PartsAt(s, 0) == Some(N.Literal(1, 1, 1));
    assert N.Extend(0, s, 0, 1) == 1;
    PartsEnd(s, 0);
    assert N.NoCarry(s, 0, 0);
  }

  /** `1`, NUL, `a` is read as 1. */
  lemma NulIgnored(s: seq<byte>)
    requires s == [0x31, 0, 0x61]
    ensures Parse(s) == Some(I64(1)) && Json(s).None?
  {
    AsciiKeepsStart(s, 0, 3);
    BehindNul(s);
  }

  /** So the whole parser accepts an input that is not UTF-8, if it fills its last block. */
  lemma NulHidesUnfinished(s: seq<byte>)
    requires s == [0x31, 0] + seq<byte>(61, _ => 0x61) + [0xc3]
    ensures Parse(s) == Some(I64(1)) && !WellFormed(s)
  {
    AsciiKeepsStart(s, 0, 63);
    assert StateAfter(s, 64) == Next(StateAfter(s, 63), s[63]);
    AutomatonRecognises(s, 0);
    BehindNul(s);
  }
}
