/** JSON texts by sections 2 to 7 of RFC 8259, read byte by byte and without an index. */
module JsonText {
  import opened Bytes
  import opened Strings
  import opened Values
  import N = Numbers

  /** What has been read, and the position behind it. */
  datatype Read<+T> = Read(value: T, end: nat)

  /** Behind the white space at `p`. */
  function Skip(s: seq<byte>, p: nat): (q: nat)
    requires p <= |s|
    ensures p <= q <= |s| && (q < |s| ==> !IsBlank(s[q])) && (q > p ==> IsBlank(s[p]))
    decreases |s| - p
  {
    if p < |s| && IsBlank(s[p]) then Skip(s, p + 1) else p
  }

  // ----- numbers, true, false and null

  /** The parts of the longest number at `p`, past its sign. */
  function PartsAt(s: seq<byte>, p: nat): Option<N.Literal> {
    match N.IntEnd(s, p)
    case None => None
    case Some(a) =>
      match N.FracEnd(s, a)
      case None => None
      case Some(b) =>
        match N.ExpEnd(s, b)
        case None => None
        case Some(e) => Some(N.Literal(a, b, e))
  }

  lemma PartsEnd(s: seq<byte>, p: nat)
    ensures PartsAt(s, p).Some? ==> p < PartsAt(s, p).value.end <= |s|
    ensures N.LiteralAt(s, p)
            == if PartsAt(s, p).Some? && IsTerminator(At(s, PartsAt(s, p).value.end)) then PartsAt(s, p) else None
  {
    if PartsAt(s, p).Some? {
      var l := PartsAt(s, p).value;
      N.IntReads(s, p, l.intEnd);
      N.FracReads(s, l.intEnd, l.fracEnd);
      N.ExpReads(s, l.fracEnd, l.end);
    }
  }

  function NumberText(s: seq<byte>, p: nat): (r: Option<Read<Value>>)
    requires p < |s|
    ensures r.Some? ==> p < r.value.end <= |s|
  {
    var buf, negative := s[p..], s[p] == MINUS;
    var start := if negative then 1 else 0;
    PartsEnd(buf, start);
    match PartsAt(buf, start)
    case None => None
    case Some(l) => Some(Read(FromNumber(N.Meaning(buf, start, negative, l)), p + l.end))
  }

  /** What is read is a number of the grammar, and its value is what its parts say. */
  lemma NumberTextExact(s: seq<byte>, p: nat)
    requires p < |s| && NumberText(s, p).Some?
    ensures var buf, start, l := s[p..], if s[p] == MINUS then 1 else 0, PartsAt(s[p..], if s[p] == MINUS then 1 else 0).value;
            && start <= l.intEnd <= l.fracEnd <= l.end <= |buf| && NumberText(s, p).value.end == p + l.end
            && N.IsInt(buf[start..l.intEnd]) && N.IsFrac(buf[l.intEnd..l.fracEnd]) && N.IsExp(buf[l.fracEnd..l.end])
            && StandsFor(NumberText(s, p).value.value, buf, start, s[p] == MINUS, l.intEnd, l.fracEnd, l.end)
  {
    var buf, start := s[p..], if s[p] == MINUS then 1 else 0;
    var l := PartsAt(buf, start).value;
    N.IntReads(buf, start, l.intEnd);
    N.FracReads(buf, l.intEnd, l.fracEnd);
    N.ExpReads(buf, l.fracEnd, l.end);
    MeaningStands(buf, start, s[p] == MINUS, l.intEnd, l.fracEnd, l.end);
  }

  predicate StartsWith(s: seq<byte>, p: nat, w: seq<byte>) {
    p + |w| <= |s| && s[p..p + |w|] == w
  }

  function NameText(s: seq<byte>, p: nat): (r: Option<Read<Value>>)
    ensures r.Some? ==> p < r.value.end <= |s|
  {
    if StartsWith(s, p, TRUE) then Some(Read(Bool(true), p + 4))
    else if StartsWith(s, p, FALSE) then Some(Read(Bool(false), p + 5))
    else if StartsWith(s, p, NULL) then Some(Read(Null, p + 4))
    else None
  }

  /** The number or name at `p`. */
  function PrimText(s: seq<byte>, p: nat): (r: Option<Read<Value>>)
    requires p < |s|
    ensures r.Some? ==> p < r.value.end <= |s|
  {
    if s[p] == MINUS || IsDigit(s[p]) then NumberText(s, p) else NameText(s, p)
  }

  // ----- strings, arrays and objects

  /** The string whose opening quote is at `p`. */
  function StringAt(s: seq<byte>, p: nat): (r: Option<Read<seq<byte>>>)
    requires p < |s|
    ensures r.Some? ==> p < r.value.end <= |s|
  {
    StringIsRfc(s, p + 1);
    if s[p] != QUOTE then None
    else match RfcString(s, p + 1)
      case None => None
      case Some(u) => Some(Read(u.bytes, u.end + 1))
  }

  /** The value that starts at `p`. */
  function ValueText(s: seq<byte>, p: nat): (r: Option<Read<Value>>)
    requires p <= |s|
    ensures r.Some? ==> p < r.value.end <= |s|
    decreases |s| - p, 0
  {
    if p == |s| then None
    else if s[p] == QUOTE then
      (match StringAt(s, p)
       case None => None
       case Some(u) => Some(Read(String(u.value), u.end)))
    else if s[p] == LBRACKET then
      var b := Skip(s, p + 1);
      if b < |s| && s[b] == RBRACKET then Some(Read(Array([]), b + 1))
      else (match ElemsText(s, p + 1)
            case None => None
            case Some(es) => Some(Read(Array(es.value), es.end)))
    else if s[p] == LBRACE then
      var b := Skip(s, p + 1);
      if b < |s| && s[b] == RBRACE then Some(Read(Object([]), b + 1))
      else (match MembersText(s, p + 1)
            case None => None
            case Some(ms) => Some(Read(Object(ms.value), ms.end)))
    else PrimText(s, p)
  }

  /** One or more values separated by commas, with the closing bracket. */
  function ElemsText(s: seq<byte>, p: nat): (r: Option<Read<seq<Value>>>)
    requires p <= |s|
    ensures r.Some? ==> p < r.value.end <= |s|
    decreases |s| - p, 1
  {
    match ValueText(s, Skip(s, p))
    case None => None
    case Some(v) =>
      var b := Skip(s, v.end);
      if b == |s| then None
      else if s[b] == RBRACKET then Some(Read([v.value], b + 1))
      else if s[b] != COMMA then None
      else (match ElemsText(s, b + 1)
            case None => None
            case Some(es) => Some(Read([v.value] + es.value, es.end)))
  }

  /** A name and the colon behind it. */
  function NameColon(s: seq<byte>, p: nat): (r: Option<Read<seq<byte>>>)
    requires p <= |s|
    ensures r.Some? ==> p < r.value.end <= |s|
  {
    var b := Skip(s, p);
    if b == |s| then None
    else match StringAt(s, b)
      case None => None
      case Some(key) =>
        var c := Skip(s, key.end);
        if c == |s| || s[c] != COLON then None else Some(Read(key.value, c + 1))
  }

  /** A name, the colon, and the value behind it. */
  function MemberText(s: seq<byte>, p: nat): (r: Option<Read<Member>>)
    requires p <= |s|
    ensures r.Some? ==> p < r.value.end <= |s|
    decreases |s| - p, 0
  {
    match NameColon(s, p)
    case None => None
    case Some(key) =>
      match ValueText(s, Skip(s, key.end))
      case None => None
      case Some(v) => Some(Read(Member(key.value, v.value), v.end))
  }

  /** One or more members separated by commas, with the closing brace. */
  function MembersText(s: seq<byte>, p: nat): (r: Option<Read<seq<Member>>>)
    requires p <= |s|
    ensures r.Some? ==> p < r.value.end <= |s|
    decreases |s| - p, 1
  {
    match MemberText(s, p)
    case None => None
    case Some(m) =>
      var b := Skip(s, m.end);
      if b == |s| then None
      else if s[b] == RBRACE then Some(Read([m.value], b + 1))
      else if s[b] != COMMA then None
      else (match MembersText(s, b + 1)
            case None => None
            case Some(ms) => Some(Read([m.value] + ms.value, ms.end)))
  }

  // ----- the last byte of a value

  lemma {:induction false} BlankOrBefore(s: seq<byte>, p: nat)
    requires 0 < p <= |s| && IsAscii(s[p - 1]) && Skip(s, p) == |s|
    ensures IsAscii(s[|s| - 1])
    decreases |s| - p
  {
    if p < |s| { BlankOrBefore(s, p + 1); }
  }

  lemma PartsEndAscii(s: seq<byte>, p: nat)
    requires PartsAt(s, p).Some?
    ensures p < PartsAt(s, p).value.end <= |s| && IsDigit(s[PartsAt(s, p).value.end - 1])
  {
    var l := PartsAt(s, p).value;
    PartsEnd(s, p);
    assert IsDigit(At(s, l.intEnd - 1));
    assert IsDigit(At(s, l.fracEnd - 1));
    assert IsDigit(At(s, l.end - 1));
  }

  lemma PrimEndsAscii(s: seq<byte>, p: nat)
    requires p < |s| && PrimText(s, p).Some?
    ensures IsAscii(s[PrimText(s, p).value.end - 1])
  {
    var e := PrimText(s, p).value.end;
    if s[p] == MINUS || IsDigit(s[p]) {
      var buf := s[p..];
      PartsEndAscii(buf, if s[p] == MINUS then 1 else 0);
      assert buf[e - p - 1] == s[e - 1];
    } else {
      var w := s[p..e];
      assert w[|w| - 1] == s[e - 1];
    }
  }

  lemma {:induction false} ElemsEndAscii(s: seq<byte>, p: nat)
    requires p <= |s| && ElemsText(s, p).Some?
    ensures s[ElemsText(s, p).value.end - 1] == RBRACKET
    decreases |s| - p
  {
    var b := Skip(s, ValueText(s, Skip(s, p)).value.end);
    if s[b] != RBRACKET { ElemsEndAscii(s, b + 1); }
  }

  lemma {:induction false} MembersEndAscii(s: seq<byte>, p: nat)
    requires p <= |s| && MembersText(s, p).Some?
    ensures s[MembersText(s, p).value.end - 1] == RBRACE
    decreases |s| - p
  {
    var b := Skip(s, MemberText(s, p).value.end);
    if s[b] != RBRACE { MembersEndAscii(s, b + 1); }
  }

  lemma StringEndsAscii(s: seq<byte>, p: nat)
    requires p < |s| && StringAt(s, p).Some?
    ensures s[StringAt(s, p).value.end - 1] == QUOTE
  {
    StringIsRfc(s, p + 1);
  }

  lemma ValueEndsAscii(s: seq<byte>, p: nat)
    requires p <= |s| && ValueText(s, p).Some?
    ensures IsAscii(s[ValueText(s, p).value.end - 1])
  {
    if s[p] == QUOTE {
      StringEndsAscii(s, p);
    } else if s[p] == LBRACKET {
      if ElemsText(s, p + 1).Some? { ElemsEndAscii(s, p + 1); }
    } else if s[p] == LBRACE {
      if MembersText(s, p + 1).Some? { MembersEndAscii(s, p + 1); }
    } else {
      PrimEndsAscii(s, p);
    }
  }

  /** The value of a JSON text: white space, one value, white space. */
  function Json(s: seq<byte>): Option<Value> {
    match ValueText(s, Skip(s, 0))
    case None => None
    case Some(v) => if Skip(s, v.end) == |s| then Some(v.value) else None
  }
}
