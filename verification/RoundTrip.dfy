/** What the writer prints, the parser reads back. */
module RoundTrip {
  import opened Bytes
  import opened Scanner
  import opened Utf8
  import opened Grammar
  import opened Strings
  import opened Values
  import opened TokenText
  import opened Documents
  import opened G = Generator
  import N = Numbers
  import B = Borrowed
  import O = Owned
  import S1 = Stage1
  import S2 = Stage2
  import Serde

  /** Values whose integers fit 64 bits, whose floats are printed as they are read, and whose strings are well-formed UTF-8. */
  predicate Printable(st: Style, v: Value) {
    match v
    case I64(i) => -N.I64_SIZE <= i < N.I64_SIZE
    case F64(f) => IsNumberText(st.formatFloat(f), v) && AllAscii(st.formatFloat(f))
    case String(s) => WellFormed(s)
    case Array(es) => forall i :: 0 <= i < |es| ==> Printable(st, es[i])
    case Object(ms) => forall i :: 0 <= i < |ms| ==> PrintableMember(st, ms[i])
    case _ => true
  }

  predicate PrintableMember(st: Style, m: Member) {
    WellFormed(m.key) && Printable(st, m.value)
  }

  /** The derivation tree of a printed value. */
  function Shape(v: Value): Tree
    decreases v, 0
  {
    match v
    case String(_) => StrTree
    case Array(es) => ArrayTree(Shapes(es))
    case Object(ms) => ObjectTree(MemberShapes(ms))
    case _ => PrimTree
  }

  function Shapes(es: seq<Value>): (t: seq<Tree>)
    ensures |t| == |es|
    decreases es, 1
  {
    if es == [] then [] else [Shape(es[0])] + Shapes(es[1..])
  }

  function MemberShapes(ms: seq<Member>): (t: seq<Tree>)
    ensures |t| == |ms|
    decreases ms, 1
  {
    if ms == [] then [] else [Shape(ms[0].value)] + MemberShapes(ms[1..])
  }

  // ----- the tokens of printed text

  /** The text from `p` to `q` holds exactly the tokens `w`. */
  ghost predicate Holds(d: Doc, p: nat, q: nat, w: seq<Kind>) {
    p <= |d.s| && Outside(d.s, q) && Spells(d.k, No(d.s, p), No(d.s, q), w)
  }

  /** The text from `p` to `q` is the value `v`. */
  ghost predicate Reads(d: Doc, p: nat, q: nat, v: Value) {
    Holds(d, p, q, Flatten(Shape(v))) && d.Interp(Shape(v), No(d.s, p)) == Some(v)
  }

  lemma HoldsOne(d: Doc, p: nat, q: nat, kind: Kind)
    requires p < |d.s| && TokenHere(d, p, kind) && Outside(d.s, q) && No(d.s, q) == No(d.s, p) + 1
    ensures Holds(d, p, q, [kind])
  {
    SpellsOne(d.k, No(d.s, p));
  }

  lemma HoldsBoth(d: Doc, p: nat, q: nat, r: nat, v: seq<Kind>, w: seq<Kind>)
    requires Holds(d, p, q, v) && Holds(d, q, r, w)
    ensures Holds(d, p, r, v + w)
  {
    SpellsConcat(d.k, No(d.s, p), No(d.s, q), No(d.s, r), v, w);
  }

  /** Text that holds no token may go in front. */
  lemma HoldsLater(d: Doc, p: nat, p2: nat, q: nat, w: seq<Kind>)
    requires p <= |d.s| && Holds(d, p2, q, w) && No(d.s, p2) == No(d.s, p)
    ensures Holds(d, p, q, w)
  {}

  lemma PunctuationHolds(d: Doc, p: nat, c: byte)
    requires IsDocOf(d) && Outside(d.s, p) && TextAt(d.s, p, [c]) && IsStructural(c)
    ensures Holds(d, p, p + 1, [KindOf(c)]) && Follows(d.s, p + 1)
  {
    StructuralText(d, p, c);
    HoldsOne(d, p, p + 1, KindOf(c));
  }

  // ----- separators

  lemma NewLineBlank(st: Style, dent: u16)
    ensures AllBlank(NewLineText(st, dent))
  {}

  /** A line break and what comes behind it. */
  lemma NewLineReads(s: seq<byte>, p: nat, st: Style, dent: u16, rest: seq<byte>)
    requires Outside(s, p) && TextAt(s, p, NewLineText(st, dent) + rest)
    ensures var q := p + |NewLineText(st, dent)|;
            Outside(s, q) && (Follows(s, p) ==> Follows(s, q)) && No(s, q) == No(s, p) && TextAt(s, q, rest)
  {
    TextSplits(s, p, NewLineText(st, dent), rest);
    NewLineBlank(st, dent);
    BlankText(s, p, NewLineText(st, dent));
  }

  /** The byte behind an element ends a number or an atom. */
  lemma RestStops(st: Style, rest: seq<byte>, dent: u16, c: byte)
    requires IsStructural(c) && rest == NewLineText(st, dent) + [c]
    ensures rest != [] && IsTerminator(rest[0])
  {
    NewLineBlank(st, dent);
  }

  lemma ElemsRestStops(st: Style, es: seq<Value>, dent: u16)
    ensures var rest := ElemsRest(st, es, dent); rest != [] && IsTerminator(rest[0])
  {
    if es == [] { RestStops(st, ElemsRest(st, es, dent), Shallower(st, dent), RBRACKET); }
  }

  lemma MembersRestStops(st: Style, ms: seq<Member>, dent: u16)
    ensures var rest := MembersRest(st, ms, dent); rest != [] && IsTerminator(rest[0])
  {
    if ms == [] { RestStops(st, MembersRest(st, ms, dent), Shallower(st, dent), RBRACE); }
  }

  lemma StopsAt(s: seq<byte>, q: nat, rest: seq<byte>)
    requires TextAt(s, q, rest) && rest != [] && IsTerminator(rest[0])
    ensures IsTerminator(At(s, q))
  {
    TextByte(s, q, rest, 0);
  }

  // ----- values

  lemma TokenReads(d: Doc, p: nat, q: nat, v: Value)
    requires p < |d.s| && Outside(d.s, q) && No(d.s, q) == No(d.s, p) + 1
    requires if v.String? then TokenHere(d, p, Str) && StringOf(d.s, p) == Some(v.s)
             else !v.Array? && !v.Object? && TokenHere(d, p, Prim) && ScalarOf(d.s, p) == Some(v)
    ensures Reads(d, p, q, v)
  {
    HoldsOne(d, p, q, if v.String? then Str else Prim);
  }

  lemma AtomScalar(s: seq<byte>, p: nat, w: seq<byte>)
    requires w == TRUE || w == FALSE || w == NULL
    requires p < |s| && s[p] == w[0]
    ensures w == TRUE ==> ScalarOf(s, p) == Some(Bool(true))
    ensures w == FALSE ==> ScalarOf(s, p) == Some(Bool(false))
    ensures w == NULL ==> ScalarOf(s, p) == Some(Null)
  {}

  lemma ScalarText(d: Doc, st: Style, v: Value, p: nat)
    requires IsDocOf(d) && !v.Array? && !v.Object? && Printable(st, v) && TextAt(d.s, p, PrintScalar(st, v))
    requires Outside(d.s, p) && Follows(d.s, p) && IsTerminator(At(d.s, p + |PrintScalar(st, v)|))
    ensures Reads(d, p, p + |PrintScalar(st, v)|, v)
  {
    var w := PrintScalar(st, v);
    match v
    case String(str) =>
      assert w == Quoted(str);
      StringReads(d, p, str);
    case I64(i) =>
      assert w == Decimal(i);
      IntegerReads(d, p, i);
    case F64(_) => FloatReads(d, p, w, v);
    case Null => AtomReads(d, p, w, v);
    case Bool(_) => AtomReads(d, p, w, v);
  }

  lemma StringReads(d: Doc, p: nat, str: seq<byte>)
    requires IsDocOf(d) && Outside(d.s, p) && TextAt(d.s, p, Quoted(str))
    ensures Reads(d, p, p + |Quoted(str)|, String(str))
  {
    StringText(d, p, str);
    TokenReads(d, p, p + |Quoted(str)|, String(str));
  }

  lemma IntegerReads(d: Doc, p: nat, i: int)
    requires IsDocOf(d) && Outside(d.s, p) && Follows(d.s, p) && TextAt(d.s, p, Decimal(i))
    requires -N.I64_SIZE <= i < N.I64_SIZE && IsTerminator(At(d.s, p + |Decimal(i)|))
    ensures Reads(d, p, p + |Decimal(i)|, I64(i))
  {
    IntegerText(d, p, i);
    TokenReads(d, p, p + |Decimal(i)|, I64(i));
  }

  lemma FloatReads(d: Doc, p: nat, w: seq<byte>, v: Value)
    requires IsDocOf(d) && Outside(d.s, p) && Follows(d.s, p) && TextAt(d.s, p, w)
    requires v.F64? && IsNumberText(w, v) && IsTerminator(At(d.s, p + |w|))
    ensures Reads(d, p, p + |w|, v)
  {
    NumberStands(d, p, w, v);
    TokenReads(d, p, p + |w|, v);
  }

  lemma AtomReads(d: Doc, p: nat, w: seq<byte>, v: Value)
    requires IsDocOf(d) && Outside(d.s, p) && Follows(d.s, p) && TextAt(d.s, p, w) && IsTerminator(At(d.s, p + |w|))
    requires (v == Null && w == NULL) || (v == Bool(true) && w == TRUE) || (v == Bool(false) && w == FALSE)
    ensures Reads(d, p, p + |w|, v)
  {
    AtomText(d, p, w);
    AtomScalar(d.s, p, w);
    TokenReads(d, p, p + |w|, v);
  }

  /** A line break and a closing bracket. */
  lemma CloserText(d: Doc, st: Style, dent: u16, p: nat, c: byte)
    requires IsDocOf(d) && Outside(d.s, p) && TextAt(d.s, p, NewLineText(st, dent) + [c]) && IsStructural(c)
    ensures var q := p + |NewLineText(st, dent)|;
            Holds(d, p, q + 1, [KindOf(c)])
  {
    var q := p + |NewLineText(st, dent)|;
    NewLineReads(d.s, p, st, dent, [c]);
    PunctuationHolds(d, q, c);
    HoldsLater(d, p, q, q + 1, [KindOf(c)]);
  }

  lemma HoldsCounts(d: Doc, p: nat, q: nat, w: seq<Kind>)
    requires Holds(d, p, q, w)
    ensures No(d.s, q) == No(d.s, p) + |w|
  {}

  /** The text from `p` to `q` is the elements `es` with the closing bracket. */
  ghost predicate ElemsRead(d: Doc, p: nat, q: nat, es: seq<Value>) {
    es != [] && Holds(d, p, q, FlattenElems(Shapes(es))) && d.Elems(Shapes(es), No(d.s, p)) == Some(es)
  }

  lemma LastElem(d: Doc, p: nat, p1: nat, p2: nat, q: nat, es: seq<Value>)
    requires |es| == 1 && Reads(d, p1, p2, es[0])
    requires p <= |d.s| && Holds(d, p2, q, [EndArray]) && No(d.s, p1) == No(d.s, p)
    ensures ElemsRead(d, p, q, es)
  {
    var v := es[0];
    assert es == [v] && Shapes([v]) == [Shape(v)];
    HoldsBoth(d, p1, p2, q, Flatten(Shape(v)), [EndArray]);
    HoldsLater(d, p, p1, q, Flatten(Shape(v)) + [EndArray]);
  }

  lemma MoreElems(d: Doc, p: nat, p1: nat, p2: nat, q: nat, es: seq<Value>)
    requires |es| > 1 && Reads(d, p1, p2, es[0]) && p <= |d.s| && No(d.s, p1) == No(d.s, p)
    requires Holds(d, p2, p2 + 1, [ValueSeparator]) && ElemsRead(d, p2 + 1, q, es[1..])
    ensures ElemsRead(d, p, q, es)
  {
    var all, more := Shapes(es), Shapes(es[1..]);
    MoreElemsHold(d, p1, p2, q, Flatten(Shape(es[0])), FlattenElems(more));
    assert all == [Shape(es[0])] + more && all[1..] == more;
    HoldsLater(d, p, p1, q, FlattenElems(all));
    MoreElemsSeen(d, all, No(d.s, p), No(d.s, p2 + 1), es);
  }

  lemma MoreElemsSeen(d: Doc, all: seq<Tree>, i: nat, j: nat, es: seq<Value>)
    requires |es| > 1 && |all| > 1 && d.Interp(all[0], i) == Some(es[0])
    requires j == i + |Flatten(all[0])| + 1 && d.Elems(all[1..], j) == Some(es[1..])
    ensures d.Elems(all, i) == Some(es)
  {
    ElemsInFront(d, all, i, es[0], es[1..]);
    assert es == [es[0]] + es[1..];
  }

  ghost predicate MembersRead(d: Doc, p: nat, q: nat, ms: seq<Member>) {
    ms != [] && Holds(d, p, q, FlattenMembers(MemberShapes(ms))) && d.Members(MemberShapes(ms), No(d.s, p)) == Some(ms)
  }

  /** The text from `p` to `q` is the member `m`. */
  ghost predicate MemberReads(d: Doc, p: nat, q: nat, m: Member) {
    Holds(d, p, q, [Str, NameSeparator] + Flatten(Shape(m.value)))
    && StringOf(d.s, d.Pos(No(d.s, p))) == Some(m.key) && d.Interp(Shape(m.value), No(d.s, p) + 2) == Some(m.value)
  }

  lemma LastMember(d: Doc, p: nat, p2: nat, q: nat, ms: seq<Member>)
    requires |ms| == 1 && MemberReads(d, p, p2, ms[0]) && Holds(d, p2, q, [EndObject])
    ensures MembersRead(d, p, q, ms)
  {
    var m := ms[0];
    var f := Flatten(Shape(m.value));
    assert ms == [m] && MemberShapes([m]) == [Shape(m.value)];
    HoldsBoth(d, p, p2, q, [Str, NameSeparator] + f, [EndObject]);
    assert [Str, NameSeparator] + f + [EndObject] == [Str, NameSeparator] + (f + [EndObject]);
  }

  lemma MoreMembersHold(d: Doc, p: nat, p2: nat, q: nat, f: seq<Kind>, rest: seq<Kind>)
    requires Holds(d, p, p2, [Str, NameSeparator] + f) && Holds(d, p2, p2 + 1, [ValueSeparator]) && Holds(d, p2 + 1, q, rest)
    ensures Holds(d, p, q, [Str, NameSeparator] + (f + ([ValueSeparator] + rest)))
    ensures No(d.s, p2 + 1) == No(d.s, p) + 2 + |f| + 1
  {
    HoldsBoth(d, p2, p2 + 1, q, [ValueSeparator], rest);
    HoldsBoth(d, p, p2, q, [Str, NameSeparator] + f, [ValueSeparator] + rest);
    assert [Str, NameSeparator] + f + ([ValueSeparator] + rest) == [Str, NameSeparator] + (f + ([ValueSeparator] + rest));
    HoldsCounts(d, p, p2, [Str, NameSeparator] + f);
    HoldsCounts(d, p2, p2 + 1, [ValueSeparator]);
  }

  lemma MoreMembers(d: Doc, p: nat, p2: nat, q: nat, ms: seq<Member>)
    requires |ms| > 1 && MemberReads(d, p, p2, ms[0])
    requires Holds(d, p2, p2 + 1, [ValueSeparator]) && MembersRead(d, p2 + 1, q, ms[1..])
    ensures MembersRead(d, p, q, ms)
  {
    var all, more := MemberShapes(ms), MemberShapes(ms[1..]);
    MoreMembersHold(d, p, p2, q, Flatten(Shape(ms[0].value)), FlattenMembers(more));
    assert all == [Shape(ms[0].value)] + more && all[1..] == more;
    MoreMembersSeen(d, all, No(d.s, p), No(d.s, p2 + 1), ms);
  }

  lemma MoreMembersSeen(d: Doc, all: seq<Tree>, i: nat, j: nat, ms: seq<Member>)
    requires |ms| > 1 && |all| > 1 && j == i + 2 + |Flatten(all[0])| + 1 && StringOf(d.s, d.Pos(i)) == Some(ms[0].key)
    requires d.Interp(all[0], i + 2) == Some(ms[0].value) && d.Members(all[1..], j) == Some(ms[1..])
    ensures d.Members(all, i) == Some(ms)
  {
    MembersInFront(d, all, i, ms[0].key, ms[0].value, ms[1..]);
    assert ms == [ms[0]] + ms[1..];
  }

  lemma MoreElemsHold(d: Doc, p1: nat, p2: nat, q: nat, f: seq<Kind>, rest: seq<Kind>)
    requires Holds(d, p1, p2, f) && Holds(d, p2, p2 + 1, [ValueSeparator]) && Holds(d, p2 + 1, q, rest)
    ensures Holds(d, p1, q, f + ([ValueSeparator] + rest))
    ensures No(d.s, p2 + 1) == No(d.s, p1) + |f| + 1
  {
    HoldsBoth(d, p2, p2 + 1, q, [ValueSeparator], rest);
    HoldsBoth(d, p1, p2, q, f, [ValueSeparator] + rest);
    HoldsCounts(d, p1, p2, f);
    HoldsCounts(d, p2, p2 + 1, [ValueSeparator]);
  }

  lemma ColonReads(d: Doc, st: Style, p: nat, rest: seq<byte>)
    requires IsDocOf(d) && Outside(d.s, p) && TextAt(d.s, p, ColonText(st) + rest)
    ensures var q := p + |ColonText(st)|;
            Holds(d, p, q, [NameSeparator]) && Follows(d.s, q) && TextAt(d.s, q, rest)
  {
    TextSplits(d.s, p, ColonText(st), rest);
    ColonAlone(d, st, p);
  }

  lemma ColonAlone(d: Doc, st: Style, p: nat)
    requires IsDocOf(d) && Outside(d.s, p) && TextAt(d.s, p, ColonText(st))
    ensures var q := p + |ColonText(st)|;
            Holds(d, p, q, [NameSeparator]) && Follows(d.s, q)
  {
    var blank := if st.pretty then [SPACE] else [];
    assert ColonText(st) == [COLON] + blank;
    TextSplits(d.s, p, [COLON], blank);
    PunctuationHolds(d, p, COLON);
    BlankText(d.s, p + 1, blank);
  }

  lemma KeyHolds(d: Doc, p: nat, key: seq<byte>, rest: seq<byte>)
    requires IsDocOf(d) && Outside(d.s, p) && TextAt(d.s, p, Quoted(key) + rest)
    ensures var q := p + |Quoted(key)|;
            Holds(d, p, q, [Str]) && StringOf(d.s, d.Pos(No(d.s, p))) == Some(key) && TextAt(d.s, q, rest)
  {
    TextSplits(d.s, p, Quoted(key), rest);
    StringText(d, p, key);
    HoldsOne(d, p, p + |Quoted(key)|, Str);
  }

  /** A line break, a name and the colon, up to where the value starts. */
  lemma NameReads(d: Doc, st: Style, key: seq<byte>, dent: u16, p: nat, rest: seq<byte>) returns (q: nat)
    requires IsDocOf(d) && Outside(d.s, p)
    requires TextAt(d.s, p, NewLineText(st, dent) + (Quoted(key) + (ColonText(st) + rest)))
    ensures q == p + |NewLineText(st, dent)| + |Quoted(key)| + |ColonText(st)|
    ensures Holds(d, p, q, [Str, NameSeparator]) && Follows(d.s, q) && TextAt(d.s, q, rest)
    ensures StringOf(d.s, d.Pos(No(d.s, p))) == Some(key) && No(d.s, q) == No(d.s, p) + 2
  {
    var p1 := p + |NewLineText(st, dent)|;
    NewLineReads(d.s, p, st, dent, Quoted(key) + (ColonText(st) + rest));
    var p2 := KeyColon(d, st, key, p1, rest);
    q := p2 + |ColonText(st)|;
    NameHolds(d, p, p1, p2, q);
  }

  lemma KeyColon(d: Doc, st: Style, key: seq<byte>, p: nat, rest: seq<byte>) returns (q: nat)
    requires IsDocOf(d) && Outside(d.s, p) && TextAt(d.s, p, Quoted(key) + (ColonText(st) + rest))
    ensures q == p + |Quoted(key)| && Holds(d, p, q, [Str]) && StringOf(d.s, d.Pos(No(d.s, p))) == Some(key)
    ensures var r := q + |ColonText(st)|; Holds(d, q, r, [NameSeparator]) && Follows(d.s, r) && TextAt(d.s, r, rest)
  {
    q := p + |Quoted(key)|;
    KeyHolds(d, p, key, ColonText(st) + rest);
    ColonReads(d, st, q, rest);
  }

  /** A line break, a name with its colon, a value, and what stands behind it. */
  lemma MemberHead(d: Doc, st: Style, key: seq<byte>, dent: u16, p: nat, v: seq<byte>, rest: seq<byte>) returns (q: nat, r: nat)
    requires IsDocOf(d) && Outside(d.s, p) && rest != [] && IsTerminator(rest[0])
    requires TextAt(d.s, p, NewLineText(st, dent) + (Quoted(key) + (ColonText(st) + (v + rest))))
    ensures r == q + |v| && q == p + |NewLineText(st, dent)| + |Quoted(key)| + |ColonText(st)|
    ensures Holds(d, p, q, [Str, NameSeparator]) && Outside(d.s, q) && Follows(d.s, q)
    ensures TextAt(d.s, q, v) && TextAt(d.s, r, rest) && IsTerminator(At(d.s, r))
    ensures StringOf(d.s, d.Pos(No(d.s, p))) == Some(key) && No(d.s, q) == No(d.s, p) + 2
  {
    q := NameReads(d, st, key, dent, p, v + rest);
    r := q + |v|;
    TextSplits(d.s, q, v, rest);
    StopsAt(d.s, r, rest);
  }

  lemma NameHolds(d: Doc, p: nat, p1: nat, p2: nat, q: nat)
    requires p <= |d.s| && p1 <= |d.s| && No(d.s, p1) == No(d.s, p)
    requires Holds(d, p1, p2, [Str]) && Holds(d, p2, q, [NameSeparator])
    ensures Holds(d, p, q, [Str, NameSeparator]) && No(d.s, q) == No(d.s, p) + 2
  {
    HoldsBoth(d, p1, p2, q, [Str], [NameSeparator]);
    assert [Str] + [NameSeparator] == [Str, NameSeparator];
    HoldsLater(d, p, p1, q, [Str, NameSeparator]);
    HoldsCounts(d, p, q, [Str, NameSeparator]);
  }

  lemma MemberIsRead(d: Doc, p: nat, q: nat, r: nat, m: Member)
    requires Holds(d, p, q, [Str, NameSeparator]) && StringOf(d.s, d.Pos(No(d.s, p))) == Some(m.key)
    requires No(d.s, q) == No(d.s, p) + 2 && Reads(d, q, r, m.value)
    ensures MemberReads(d, p, r, m)
  {
    HoldsBoth(d, p, q, r, [Str, NameSeparator], Flatten(Shape(m.value)));
  }

  /** A line break, a value, and what stands behind it. */
  lemma ElemHead(s: seq<byte>, st: Style, dent: u16, p: nat, v: seq<byte>, rest: seq<byte>) returns (p1: nat, p2: nat)
    requires Outside(s, p) && Follows(s, p) && TextAt(s, p, NewLineText(st, dent) + (v + rest))
    requires rest != [] && IsTerminator(rest[0])
    ensures p1 == p + |NewLineText(st, dent)| && p2 == p1 + |v|
    ensures Outside(s, p1) && Follows(s, p1) && No(s, p1) == No(s, p)
    ensures TextAt(s, p1, v) && TextAt(s, p2, rest) && IsTerminator(At(s, p2))
  {
    p1 := p + |NewLineText(st, dent)|;
    p2 := p1 + |v|;
    NewLineReads(s, p, st, dent, v + rest);
    TextSplits(s, p1, v, rest);
    StopsAt(s, p2, rest);
  }

  lemma CommaText(d: Doc, p: nat, more: seq<byte>)
    requires IsDocOf(d) && Outside(d.s, p) && TextAt(d.s, p, [COMMA] + more)
    ensures Holds(d, p, p + 1, [ValueSeparator]) && Follows(d.s, p + 1) && TextAt(d.s, p + 1, more)
  {
    TextSplits(d.s, p, [COMMA], more);
    PunctuationHolds(d, p, COMMA);
  }

  lemma LastElemText(d: Doc, st: Style, dent: u16, p: nat, p1: nat, p2: nat, q: nat, es: seq<Value>)
    requires |es| == 1 && IsDocOf(d) && p <= |d.s| && Reads(d, p1, p2, es[0]) && No(d.s, p1) == No(d.s, p)
    requires TextAt(d.s, p2, NewLineText(st, Shallower(st, dent)) + [RBRACKET])
    requires q == p2 + |NewLineText(st, Shallower(st, dent))| + 1
    ensures ElemsRead(d, p, q, es)
  {
    CloserText(d, st, Shallower(st, dent), p2, RBRACKET);
    LastElem(d, p, p1, p2, q, es);
  }

  lemma LastMemberText(d: Doc, st: Style, dent: u16, p: nat, r: nat, q: nat, ms: seq<Member>)
    requires |ms| == 1 && IsDocOf(d) && MemberReads(d, p, r, ms[0])
    requires TextAt(d.s, r, NewLineText(st, Shallower(st, dent)) + [RBRACE])
    requires q == r + |NewLineText(st, Shallower(st, dent))| + 1
    ensures MembersRead(d, p, q, ms)
  {
    CloserText(d, st, Shallower(st, dent), r, RBRACE);
    LastMember(d, p, r, q, ms);
  }

  // ----- the induction over the value

  lemma EmptyArrayText(d: Doc, p: nat, v: Value)
    requires v == Array([]) && IsDocOf(d) && Outside(d.s, p) && TextAt(d.s, p, [LBRACKET] + [RBRACKET])
    ensures Reads(d, p, p + 2, v)
  {
    TextSplits(d.s, p, [LBRACKET], [RBRACKET]);
    PunctuationHolds(d, p, LBRACKET);
    PunctuationHolds(d, p + 1, RBRACKET);
    HoldsBoth(d, p, p + 1, p + 2, [BeginArray], [EndArray]);
  }

  lemma EmptyObjectText(d: Doc, p: nat, v: Value)
    requires v == Object([]) && IsDocOf(d) && Outside(d.s, p) && TextAt(d.s, p, [LBRACE] + [RBRACE])
    ensures Reads(d, p, p + 2, v)
  {
    TextSplits(d.s, p, [LBRACE], [RBRACE]);
    PunctuationHolds(d, p, LBRACE);
    PunctuationHolds(d, p + 1, RBRACE);
    HoldsBoth(d, p, p + 1, p + 2, [BeginObject], [EndObject]);
  }

  lemma ArrayReads(d: Doc, p: nat, q: nat, v: Value)
    requires v.Array? && Holds(d, p, p + 1, [BeginArray]) && ElemsRead(d, p + 1, q, v.elems)
    ensures Reads(d, p, q, v)
  {
    HoldsBoth(d, p, p + 1, q, [BeginArray], FlattenElems(Shapes(v.elems)));
    HoldsCounts(d, p, p + 1, [BeginArray]);
  }

  lemma ObjectReads(d: Doc, p: nat, q: nat, v: Value)
    requires v.Object? && Holds(d, p, p + 1, [BeginObject]) && MembersRead(d, p + 1, q, v.members)
    ensures Reads(d, p, q, v)
  {
    HoldsBoth(d, p, p + 1, q, [BeginObject], FlattenMembers(MemberShapes(v.members)));
    HoldsCounts(d, p, p + 1, [BeginObject]);
  }

  lemma OpenerText(d: Doc, p: nat, c: byte, w: seq<byte>)
    requires IsDocOf(d) && Outside(d.s, p) && TextAt(d.s, p, [c] + w) && IsStructural(c)
    ensures Holds(d, p, p + 1, [KindOf(c)]) && Follows(d.s, p + 1) && TextAt(d.s, p + 1, w)
  {
    TextSplits(d.s, p, [c], w);
    PunctuationHolds(d, p, c);
  }

  /** The text of a value holds its tokens, and they stand for the value. */
  lemma {:induction false} ValueText(d: Doc, st: Style, v: Value, dent: u16, p: nat, q: nat)
    requires IsDocOf(d) && Printable(st, v) && TextAt(d.s, p, Print(st, v, dent)) && q == p + |Print(st, v, dent)|
    requires Outside(d.s, p) && Follows(d.s, p) && IsTerminator(At(d.s, q))
    ensures Reads(d, p, q, v)
    decreases v, 1
  {
    match v
    case Array(es) =>
      if es == [] { EmptyArrayText(d, p, v); } else { ArrayText(d, st, v, dent, p, q); }
    case Object(ms) =>
      if ms == [] { EmptyObjectText(d, p, v); } else { ObjectText(d, st, v, dent, p, q); }
    case _ => ScalarText(d, st, v, p);
  }

  lemma {:induction false} ArrayText(d: Doc, st: Style, v: Value, dent: u16, p: nat, q: nat)
    requires IsDocOf(d) && v.Array? && v.elems != [] && forall i :: 0 <= i < |v.elems| ==> Printable(st, v.elems[i])
    requires TextAt(d.s, p, Print(st, v, dent)) && q == p + |Print(st, v, dent)| && Outside(d.s, p)
    ensures Reads(d, p, q, v)
    decreases v, 0
  {
    OpenerText(d, p, LBRACKET, PrintElems(st, v.elems, Deeper(st, dent)));
    ElemsText(d, st, v.elems, Deeper(st, dent), p + 1, q);
    ArrayReads(d, p, q, v);
  }

  lemma {:induction false} ObjectText(d: Doc, st: Style, v: Value, dent: u16, p: nat, q: nat)
    requires IsDocOf(d) && v.Object? && v.members != [] && forall i :: 0 <= i < |v.members| ==> PrintableMember(st, v.members[i])
    requires TextAt(d.s, p, Print(st, v, dent)) && q == p + |Print(st, v, dent)| && Outside(d.s, p)
    ensures Reads(d, p, q, v)
    decreases v, 0
  {
    OpenerText(d, p, LBRACE, PrintMembers(st, v.members, Deeper(st, dent)));
    MembersText(d, st, v.members, Deeper(st, dent), p + 1, q);
    ObjectReads(d, p, q, v);
  }

  lemma {:induction false} ElemsText(d: Doc, st: Style, es: seq<Value>, dent: u16, p: nat, q: nat)
    requires IsDocOf(d) && es != [] && (forall i :: 0 <= i < |es| ==> Printable(st, es[i]))
    requires TextAt(d.s, p, PrintElems(st, es, dent)) && q == p + |PrintElems(st, es, dent)|
    requires Outside(d.s, p) && Follows(d.s, p)
    ensures ElemsRead(d, p, q, es)
    decreases es, 1
  {
    var rest := ElemsRest(st, es[1..], dent);
    ElemsRestStops(st, es[1..], dent);
    assert PrintElems(st, es, dent) == ElementText(st, es[0], dent, rest);
    var p1, p2 := ElemText(d, st, es[0], dent, p, rest);
    ElemsRestText(d, st, es, dent, p, p1, p2, q);
  }

  lemma {:induction false} ElemsRestText(d: Doc, st: Style, es: seq<Value>, dent: u16, p: nat, p1: nat, p2: nat, q: nat)
    requires IsDocOf(d) && es != [] && (forall i :: 0 <= i < |es| ==> Printable(st, es[i]))
    requires p <= |d.s| && Reads(d, p1, p2, es[0]) && No(d.s, p1) == No(d.s, p)
    requires TextAt(d.s, p2, ElemsRest(st, es[1..], dent)) && q == p2 + |ElemsRest(st, es[1..], dent)|
    ensures ElemsRead(d, p, q, es)
    decreases es, 0
  {
    if |es| == 1 {
      LastElemText(d, st, dent, p, p1, p2, q, es);
    } else {
      NextElemsText(d, st, es[1..], dent, p2, q);
      MoreElems(d, p, p1, p2, q, es);
    }
  }

  lemma {:induction false} NextElemsText(d: Doc, st: Style, es: seq<Value>, dent: u16, r: nat, q: nat)
    requires IsDocOf(d) && Outside(d.s, r) && es != [] && (forall i :: 0 <= i < |es| ==> Printable(st, es[i]))
    requires TextAt(d.s, r, ElemsRest(st, es, dent)) && q == r + |ElemsRest(st, es, dent)|
    ensures Holds(d, r, r + 1, [ValueSeparator]) && ElemsRead(d, r + 1, q, es)
    decreases es, 2
  {
    CommaText(d, r, PrintElems(st, es, dent));
    ElemsText(d, st, es, dent, r + 1, q);
  }

  lemma {:induction false} ElemText(d: Doc, st: Style, v: Value, dent: u16, p: nat, rest: seq<byte>) returns (p1: nat, p2: nat)
    requires IsDocOf(d) && Printable(st, v) && Outside(d.s, p) && Follows(d.s, p)
    requires TextAt(d.s, p, ElementText(st, v, dent, rest)) && rest != [] && IsTerminator(rest[0])
    ensures Reads(d, p1, p2, v) && No(d.s, p1) == No(d.s, p) && TextAt(d.s, p2, rest)
    ensures p2 + |rest| == p + |ElementText(st, v, dent, rest)|
    decreases v, 2
  {
    p1, p2 := ElemHead(d.s, st, dent, p, Print(st, v, dent), rest);
    ValueText(d, st, v, dent, p1, p2);
  }

  lemma {:induction false} MembersText(d: Doc, st: Style, ms: seq<Member>, dent: u16, p: nat, q: nat)
    requires IsDocOf(d) && ms != [] && (forall i :: 0 <= i < |ms| ==> PrintableMember(st, ms[i]))
    requires TextAt(d.s, p, PrintMembers(st, ms, dent)) && q == p + |PrintMembers(st, ms, dent)| && Outside(d.s, p)
    ensures MembersRead(d, p, q, ms)
    decreases ms, 1
  {
    var rest := MembersRest(st, ms[1..], dent);
    MembersRestStops(st, ms[1..], dent);
    assert PrintMembers(st, ms, dent) == G.MemberText(st, ms[0], dent, rest);
    var r := MemberText(d, st, ms[0], dent, p, rest);
    MembersRestText(d, st, ms, dent, p, r, q);
  }

  lemma {:induction false} MembersRestText(d: Doc, st: Style, ms: seq<Member>, dent: u16, p: nat, r: nat, q: nat)
    requires IsDocOf(d) && ms != [] && (forall i :: 0 <= i < |ms| ==> PrintableMember(st, ms[i]))
    requires MemberReads(d, p, r, ms[0])
    requires TextAt(d.s, r, MembersRest(st, ms[1..], dent)) && q == r + |MembersRest(st, ms[1..], dent)|
    ensures MembersRead(d, p, q, ms)
    decreases ms, 0
  {
    if |ms| == 1 {
      LastMemberText(d, st, dent, p, r, q, ms);
    } else {
      NextMembersText(d, st, ms[1..], dent, r, q);
      MoreMembers(d, p, r, q, ms);
    }
  }

  lemma {:induction false} NextMembersText(d: Doc, st: Style, ms: seq<Member>, dent: u16, r: nat, q: nat)
    requires IsDocOf(d) && Outside(d.s, r) && ms != [] && (forall i :: 0 <= i < |ms| ==> PrintableMember(st, ms[i]))
    requires TextAt(d.s, r, MembersRest(st, ms, dent)) && q == r + |MembersRest(st, ms, dent)|
    ensures Holds(d, r, r + 1, [ValueSeparator]) && MembersRead(d, r + 1, q, ms)
    decreases ms, 2
  {
    CommaText(d, r, PrintMembers(st, ms, dent));
    MembersText(d, st, ms, dent, r + 1, q);
  }

  lemma {:induction false} MemberText(d: Doc, st: Style, m: Member, dent: u16, p: nat, rest: seq<byte>) returns (r: nat)
    requires IsDocOf(d) && PrintableMember(st, m) && Outside(d.s, p)
    requires TextAt(d.s, p, G.MemberText(st, m, dent, rest)) && rest != [] && IsTerminator(rest[0])
    ensures MemberReads(d, p, r, m) && TextAt(d.s, r, rest)
    ensures r + |rest| == p + |G.MemberText(st, m, dent, rest)|
    decreases m, 0
  {
    var v := Print(st, m.value, dent);
    var q;
    q, r := MemberHead(d, st, m.key, dent, p, v, rest);
    ValueText(d, st, m.value, dent, q, r);
    MemberIsRead(d, p, q, r, m);
  }

  // ----- printed text is UTF-8

  predicate AllAscii(w: seq<byte>) {
    forall i :: 0 <= i < |w| ==> IsAscii(w[i])
  }

  lemma {:induction false} AsciiRuns(w: seq<byte>)
    requires AllAscii(w)
    ensures RunFrom(START, w) == START
    decreases |w|
  {
    if w != [] { AsciiRuns(w[1..]); }
  }

  lemma AsciiThen(a: seq<byte>, b: seq<byte>)
    requires AllAscii(a)
    ensures RunFrom(START, a + b) == RunFrom(START, b)
  {
    AsciiRuns(a);
    RunFromConcat(START, a, b);
  }

  lemma RunsThen(a: seq<byte>, b: seq<byte>)
    requires RunFrom(START, a) == START
    ensures RunFrom(START, a + b) == RunFrom(START, b)
  {
    RunFromConcat(START, a, b);
  }

  lemma EscapeIsAscii(b: byte)
    requires NeedsEscape(b)
    ensures AllAscii(EscapeByte(b)) && IsAscii(b)
  {}

  /** Escaping keeps the automaton in step with the string. */
  lemma {:induction false} EscapeRuns(str: seq<byte>, n: nat)
    requires WellFormed(str) && n <= |str|
    ensures RunFrom(START, EscapeUpTo(str, n)) == StateAfter(str, n)
  {
    if n > 0 {
      var b := str[n - 1];
      EscapeRuns(str, n - 1);
      RunFromConcat(START, EscapeUpTo(str, n - 1), EscapeByte(b));
      EscapedByteRuns(StateAfter(str, n - 1), b);
      AutomatonRecognises(str, 0);
      if IsAscii(b) { AsciiAtStart(str, n - 1); }
    }
  }

  lemma EscapedByteRuns(q: State, b: byte)
    ensures !NeedsEscape(b) || q == START ==> RunFrom(q, EscapeByte(b)) == Next(q, b)
  {
    if NeedsEscape(b) {
      EscapeIsAscii(b);
      AsciiRuns(EscapeByte(b));
    } else {
      assert EscapeByte(b)[1..] == [];
    }
  }

  lemma QuotedRuns(str: seq<byte>)
    requires WellFormed(str)
    ensures RunFrom(START, Quoted(str)) == START
  {
    EscapeRuns(str, |str|);
    AutomatonRecognises(str, 0);
    QuotedParts(str);
    AsciiThen([QUOTE], EscapeAll(str) + [QUOTE]);
    RunsThen(EscapeAll(str), [QUOTE]);
    AsciiRuns([QUOTE]);
  }

  lemma ScalarRuns(st: Style, v: Value)
    requires !v.Array? && !v.Object? && Printable(st, v)
    ensures RunFrom(START, PrintScalar(st, v)) == START
  {
    match v
    case String(s) => QuotedRuns(s);
    case I64(i) =>
      DigitsAreInt(if i < 0 then -i else i);
      AsciiRuns(Decimal(i));
    case F64(f) => AsciiRuns(st.formatFloat(f));
    case Null => AsciiRuns(NULL);
    case Bool(b) => AsciiRuns(if b then TRUE else FALSE);
  }

  lemma NewLineAscii(st: Style, dent: u16)
    ensures AllAscii(NewLineText(st, dent)) && AllAscii(ColonText(st))
  {}

  lemma CloserRuns(st: Style, dent: u16, c: byte)
    requires IsAscii(c)
    ensures RunFrom(START, NewLineText(st, dent) + [c]) == START
  {
    NewLineAscii(st, dent);
    AsciiThen(NewLineText(st, dent), [c]);
    AsciiRuns([c]);
  }

  lemma {:induction false} PrintRuns(st: Style, v: Value, dent: u16)
    requires Printable(st, v)
    ensures RunFrom(START, Print(st, v, dent)) == START
    decreases v, 0
  {
    match v
    case Array(es) =>
      if es == [] { AsciiRuns([LBRACKET] + [RBRACKET]); }
      else {
        ElemsRun(st, es, Deeper(st, dent));
        AsciiThen([LBRACKET], PrintElems(st, es, Deeper(st, dent)));
      }
    case Object(ms) =>
      if ms == [] { AsciiRuns([LBRACE] + [RBRACE]); }
      else {
        MembersRun(st, ms, Deeper(st, dent));
        AsciiThen([LBRACE], PrintMembers(st, ms, Deeper(st, dent)));
      }
    case _ => ScalarRuns(st, v);
  }

  lemma {:induction false} ElemsRun(st: Style, es: seq<Value>, dent: u16)
    requires es != [] && forall i :: 0 <= i < |es| ==> Printable(st, es[i])
    ensures RunFrom(START, PrintElems(st, es, dent)) == START
    decreases es, 1
  {
    var v, rest := Print(st, es[0], dent), ElemsRest(st, es[1..], dent);
    PrintRuns(st, es[0], dent);
    if |es| == 1 {
      CloserRuns(st, Shallower(st, dent), RBRACKET);
    } else {
      ElemsRun(st, es[1..], dent);
      AsciiThen([COMMA], PrintElems(st, es[1..], dent));
    }
    assert RunFrom(START, rest) == START;
    RunsThen(v, rest);
    NewLineAscii(st, dent);
    AsciiThen(NewLineText(st, dent), v + rest);
  }

  lemma {:induction false} MembersRun(st: Style, ms: seq<Member>, dent: u16)
    requires ms != [] && forall i :: 0 <= i < |ms| ==> PrintableMember(st, ms[i])
    ensures RunFrom(START, PrintMembers(st, ms, dent)) == START
    decreases ms, 1
  {
    var m := ms[0];
    assert PrintableMember(st, m);
    var v, rest := Print(st, m.value, dent), MembersRest(st, ms[1..], dent);
    PrintRuns(st, m.value, dent);
    if |ms| == 1 {
      CloserRuns(st, Shallower(st, dent), RBRACE);
    } else {
      MembersRun(st, ms[1..], dent);
      AsciiThen([COMMA], PrintMembers(st, ms[1..], dent));
    }
    assert RunFrom(START, rest) == START;
    MemberRuns(st, m.key, dent, v, rest);
  }

  lemma MemberRuns(st: Style, key: seq<byte>, dent: u16, v: seq<byte>, rest: seq<byte>)
    requires WellFormed(key) && RunFrom(START, v) == START && RunFrom(START, rest) == START
    ensures RunFrom(START, NewLineText(st, dent) + (Quoted(key) + (ColonText(st) + (v + rest)))) == START
  {
    RunsThen(v, rest);
    NewLineAscii(st, dent);
    AsciiThen(ColonText(st), v + rest);
    QuotedRuns(key);
    RunsThen(Quoted(key), ColonText(st) + (v + rest));
    AsciiThen(NewLineText(st, dent), Quoted(key) + (ColonText(st) + (v + rest)));
  }

  lemma PrintWellFormed(st: Style, v: Value, dent: u16)
    requires Printable(st, v)
    ensures WellFormed(Print(st, v, dent))
  {
    var s := Print(st, v, dent);
    PrintRuns(st, v, dent);
    RunFromStart(s, 0);
    assert s[0..] == s;
    AutomatonRecognises(s, 0);
  }

  // ----- the whole way

  /** Stage 1 accepts a text that ends outside strings, holds a token and is well-formed. */
  lemma IndexOfText(s: seq<byte>)
    requires Outside(s, |s|) && Tokens(s, |s|) != [] && WellFormed(s)
    ensures S1.StructuralIndex(s) == Ok([0] + Tokens(s, |s|))
  {
    ControlFreeExact(s, |s|);
    S1.Utf8Exact(s);
  }

  lemma TextIsValid(d: Doc, v: Value)
    requires IsDocOf(d) && Reads(d, 0, |d.s|, v) && WellFormed(d.s)
    ensures Parse(d.s) == Some(v)
  {
    var n := |d.k|;
    HoldsCounts(d, 0, |d.s|, Flatten(Shape(v)));
    IndexOfText(d.s);
    assert DocOf(d.s) == d;
    assert No(d.s, 0) == 1 && No(d.s, |d.s|) == n;
    ValueReads(d.k, 1, n, Shape(v));
  }

  /** Whatever the writer prints, compactly or indented at any depth, the parser reads back as the same value. */
  lemma PrintThenParse(st: Style, v: Value, dent: u16)
    requires Printable(st, v)
    ensures Parse(Print(st, v, dent)) == Some(v)
  {
    var s := Print(st, v, dent);
    var indexes := [0] + Tokens(s, |s|);
    var d := Doc(s, indexes, S2.Kinds(s, indexes));
    TextSlice(s, 0, s);
    ValueText(d, st, v, dent, 0, |s|);
    PrintWellFormed(st, v, dent);
    TextIsValid(d, v);
  }

  /** Of the text `{"a":1,"a":2}` the builders keep both members and serde only the last. */
  lemma RepeatedKeyLost()
    ensures var a: seq<byte> := [0x61];
            var s: seq<byte> := [LBRACE, QUOTE, 0x61, QUOTE, COLON, 0x31, COMMA, QUOTE, 0x61, QUOTE, COLON, 0x32, RBRACE];
            var v := Object([Member(a, I64(1)), Member(a, I64(2))]);
            Parse(s) == Some(v) && Serde.LastWins(v) == Object([Member(a, I64(2))])
  {
    var a: seq<byte> := [0x61];
    var one, two := Member(a, I64(1)), Member(a, I64(2));
    var v := Object([one, two]);
    var st := Style(false, 0, _ => []);
    AutomatonRecognises(a, 0);
    assert StateAfter(a, 1) == START;
    PrintThenParse(st, v, 0);
    TwoMembersText(st, one, two);
    Serde.TwoInserted(one, two);
  }

  lemma TwoMembersText(st: Style, one: Member, two: Member)
    requires !st.pretty && one == Member([0x61], I64(1)) && two == Member([0x61], I64(2))
    ensures Print(st, Object([one, two]), 0)
            == [LBRACE, QUOTE, 0x61, QUOTE, COLON, 0x31, COMMA, QUOTE, 0x61, QUOTE, COLON, 0x32, RBRACE]
  {
    var a: seq<byte> := [0x61];
    assert EscapeUpTo(a, 0) == [] && EscapeUpTo(a, 1) == [] + [0x61];
    assert Quoted(a) == [QUOTE, 0x61, QUOTE];
    assert [one, two][1..] == [two] && [two][1..] == [];
    assert Print(st, I64(1), 0) == [0x31] && Print(st, I64(2), 0) == [0x32];
    assert MembersRest(st, [], 0) == [RBRACE];
    assert PrintMembers(st, [two], 0) == [QUOTE, 0x61, QUOTE, COLON, 0x32, RBRACE];
    assert MembersRest(st, [two], 0) == [COMMA, QUOTE, 0x61, QUOTE, COLON, 0x32, RBRACE];
    assert PrintMembers(st, [one, two], 0)
           == [QUOTE, 0x61, QUOTE, COLON, 0x31, COMMA, QUOTE, 0x61, QUOTE, COLON, 0x32, RBRACE];
  }

  /** Writes a value into a buffer of its own. */
  method Written(st: Style, v: Value) returns (input: array<byte>)
    ensures fresh(input) && input[..] == Print(st, v, 0)
  {
    var g := new Generator(st);
    g.WriteJson(v);
    var code := g.code;
    input := new byte[|code|](i requires 0 <= i < |code| => code[i]);
    assert code == Print(st, v, 0);
  }

  /** Written by the writer and read by the owned builder, a value comes back. */
  method WriteThenOwn(st: Style, v: Value, swar: bool) returns (r: Result<Value>)
    requires Printable(st, v) && Followed(Print(st, v, 0))
    ensures if S1.Addressed(Print(st, v, 0)) then r == Ok(v) else r.Err?
  {
    PrintThenParse(st, v, 0);
    var input := Written(st, v);
    r := O.ToValue(input, swar);
  }

  /** Read by the borrowing builder, it comes back in what the slices of the buffer show. */
  method WriteThenBorrow(st: Style, v: Value, swar: bool) returns (r: Result<B.Value>, buf: seq<byte>)
    requires Printable(st, v) && Followed(Print(st, v, 0))
    ensures if S1.Addressed(Print(st, v, 0)) then r.Ok? && B.Resolve(r.value, buf) == v else r.Err?
  {
    PrintThenParse(st, v, 0);
    var input := Written(st, v);
    r := B.ToValue(input, swar);
    buf := input[..];
  }

  /** Read through serde, it comes back exactly if no object in it repeats a key. */
  method WriteThenDeserialize(st: Style, v: Value, swar: bool) returns (r: Result<Value>)
    requires Printable(st, v) && Followed(Print(st, v, 0))
    ensures if S1.Addressed(Print(st, v, 0)) then r == Ok(Serde.LastWins(v)) && (Serde.UniqueKeys(v) <==> r == Ok(v))
            else r.Err?
  {
    PrintThenParse(st, v, 0);
    var input := Written(st, v);
    r := Serde.FromSlice(input, swar);
  }
}
