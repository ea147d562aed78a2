/** The value of a document read from its tokens, one step at a time. */
module TokenReading {
  import opened Bytes
  import opened Scanner
  import opened Grammar
  import opened Values
  import opened JsonText
  import opened Documents
  import S1 = Stage1
  import S2 = Stage2
  import W = Walk

  /** The value at token `i`, and the token behind it. */
  ghost function Seen(d: Doc, i: nat): Option<Read<Value>> {
    match ValueAt(d.k, i)
    case None => None
    case Some(t) => Behind(d.Interp(t.tree, i), t.next)
  }

  ghost function SeenElems(d: Doc, i: nat): Option<Read<seq<Value>>> {
    match ElemsAt(d.k, i)
    case None => None
    case Some(t) => Behind(d.Elems(t.tree, i), t.next)
  }

  ghost function SeenMembers(d: Doc, i: nat): Option<Read<seq<Member>>> {
    match MembersAt(d.k, i)
    case None => None
    case Some(t) => Behind(d.Members(t.tree, i), t.next)
  }

  function Behind<T>(v: Option<T>, next: nat): Option<Read<T>> {
    match v
    case None => None
    case Some(x) => Some(Read(x, next))
  }

  function Also<T>(first: T, rest: Option<Read<seq<T>>>): Option<Read<seq<T>>> {
    match rest
    case None => None
    case Some(r) => Some(Read([first] + r.value, r.end))
  }

  function Wrap<A, B>(r: Option<Read<A>>, f: A -> B): Option<Read<B>> {
    match r
    case None => None
    case Some(x) => Some(Read(f(x.value), x.end))
  }

  /** The token at `j`, if there is one. */
  function KindAt(k: seq<Kind>, j: nat): Option<Kind> {
    if j < |k| then Some(k[j]) else None
  }

  /** A list of which `v` is the first, by the token behind it. */
  function ListSeen<T>(kind: Option<Kind>, close: Kind, v: Read<T>, rest: Option<Read<seq<T>>>): Option<Read<seq<T>>> {
    if kind == Some(close) then Some(Read([v.value], v.end + 1))
    else if kind == Some(ValueSeparator) then Also(v.value, rest)
    else None
  }

  lemma SeenElemsStep(d: Doc, i: nat)
    ensures SeenElems(d, i) ==
            match Seen(d, i)
            case None => None
            case Some(v) => ListSeen(KindAt(d.k, v.end), EndArray, v, SeenElems(d, v.end + 1))
  {
    if ElemsAt(d.k, i).Some? {
      W.TreeEnds(d, i);
      var v := ValueAt(d.k, i).value;
      var es := ElemsAt(d.k, i).value.tree;
      if d.k[v.next] == EndArray {
        assert es == [v.tree];
      } else {
        assert es == [v.tree] + ElemsAt(d.k, v.next + 1).value.tree;
        assert es[1..] == ElemsAt(d.k, v.next + 1).value.tree;
      }
    }
  }

  /** The name at token `i`, with its colon. */
  ghost function SeenName(d: Doc, i: nat): Option<Read<seq<byte>>> {
    if i + 1 < |d.k| && d.k[i] == Str && d.k[i + 1] == NameSeparator then Behind(StringOf(d.s, d.Pos(i)), i + 2) else None
  }

  ghost function SeenMember(d: Doc, i: nat): Option<Read<Member>> {
    match SeenName(d, i)
    case None => None
    case Some(key) => Named(key.value, Seen(d, i + 2))
  }

  function Named(key: seq<byte>, r: Option<Read<Value>>): Option<Read<Member>> {
    match r
    case None => None
    case Some(v) => Some(Read(Member(key, v.value), v.end))
  }

  lemma SeenMemberIs(d: Doc, i: nat)
    ensures SeenMember(d, i) == match SeenName(d, i) case None => None case Some(key) => Named(key.value, Seen(d, key.end))
  {}

  lemma SeenMembersStep(d: Doc, i: nat)
    ensures SeenMembers(d, i) ==
            match SeenMember(d, i)
            case None => None
            case Some(m) => ListSeen(KindAt(d.k, m.end), EndObject, m, SeenMembers(d, m.end + 1))
  {
    SeenMemberIs(d, i);
    if MembersAt(d.k, i).Some? {
      W.TreeEnds(d, i + 2);
      var v := ValueAt(d.k, i + 2).value;
      var ms := MembersAt(d.k, i).value.tree;
      if d.k[v.next] == EndObject {
        assert ms == [v.tree];
      } else {
        assert ms == [v.tree] + MembersAt(d.k, v.next + 1).value.tree;
        assert ms[1..] == MembersAt(d.k, v.next + 1).value.tree;
      }
    }
  }

  lemma SeenStep(d: Doc, i: nat)
    ensures Seen(d, i) ==
            if i >= |d.k| then None
            else match d.k[i]
              case Str => Wrap(Behind(StringOf(d.s, d.Pos(i)), i + 1), AString)
              case Prim => Behind(if d.Pos(i) <= |d.s| then ScalarOf(d.s, d.Pos(i)) else None, i + 1)
              case BeginArray =>
                if i + 1 < |d.k| && d.k[i + 1] == EndArray then Some(Read(Array([]), i + 2))
                else Wrap(SeenElems(d, i + 1), AnArray)
              case BeginObject =>
                if i + 1 < |d.k| && d.k[i + 1] == EndObject then Some(Read(Object([]), i + 2))
                else Wrap(SeenMembers(d, i + 1), AnObject)
              case _ => None
  {}

  function AString(b: seq<byte>): Value {
    String(b)
  }

  function AnArray(es: seq<Value>): Value {
    Array(es)
  }

  function AnObject(ms: seq<Member>): Value {
    Object(ms)
  }

  // ----- whole inputs

  /** The tokens of an input, accepted or not. */
  function TokensOf(s: seq<byte>): Doc {
    var indexes := [0] + Tokens(s, |s|);
    Doc(s, indexes, S2.Kinds(s, indexes))
  }

  /** The parser returns what is seen from the first token on, if that is all. */
  lemma ParseIsSeen(s: seq<byte>)
    requires S1.StructuralIndex(s).Ok?
    ensures var d := TokensOf(s);
            && (Parse(s).Some? <==> Seen(d, 1).Some? && Seen(d, 1).value.end == |d.k|)
            && (Parse(s).Some? ==> Parse(s) == Some(Seen(d, 1).value.value))
  {}
}
