/** The strings a value hands out as `str`: when they are well-formed UTF-8. */
module StringSafety {
  import opened Bytes
  import opened Utf8
  import opened Grammar
  import opened Strings
  import opened Values
  import opened JsonText
  import opened TokenReading
  import opened Documents
  import S2 = Stage2

  /** All strings and keys in the value are well-formed UTF-8. */
  predicate Utf8Value(v: Value) {
    match v
    case String(b) => WellFormed(b)
    case Array(es) => forall i :: 0 <= i < |es| ==> Utf8Value(es[i])
    case Object(ms) => forall i :: 0 <= i < |ms| ==> Utf8Member(ms[i])
    case _ => true
  }

  predicate Utf8Member(m: Member) {
    WellFormed(m.key) && Utf8Value(m.value)
  }

  predicate Utf8Values(es: seq<Value>) {
    forall i :: 0 <= i < |es| ==> Utf8Value(es[i])
  }

  predicate Utf8Members(ms: seq<Member>) {
    forall i :: 0 <= i < |ms| ==> Utf8Member(ms[i])
  }

  lemma ValuesCons(v: Value, es: seq<Value>)
    ensures Utf8Values([v] + es) <==> Utf8Value(v) && Utf8Values(es)
  {
    var all := [v] + es;
    assert all[0] == v && forall i :: 0 <= i < |es| ==> all[i + 1] == es[i];
  }

  lemma MembersCons(m: Member, ms: seq<Member>)
    ensures Utf8Members([m] + ms) <==> Utf8Member(m) && Utf8Members(ms)
  {
    var all := [m] + ms;
    assert all[0] == m && forall i :: 0 <= i < |ms| ==> all[i + 1] == ms[i];
  }

  /** No low surrogate stands alone in the string at token `x`, if it is one. */
  ghost predicate TokenPure(d: Doc, x: nat)
    requires x < |d.k|
  {
    d.k[x] == Str ==> NoLoneLow(d.s, d.Pos(x) + 1)
  }

  /** The tokens from `i` up to `j` are. */
  ghost predicate Pure(d: Doc, i: nat, j: nat) {
    j <= |d.k| && forall x :: i <= x < j ==> TokenPure(d, x)
  }

  lemma PureOne(d: Doc, i: nat)
    requires i < |d.k|
    ensures Pure(d, i, i + 1) <==> TokenPure(d, i)
  {}

  lemma PureJoin(d: Doc, i: nat, j: nat, k: nat)
    requires i <= j <= k <= |d.k|
    ensures Pure(d, i, k) <==> Pure(d, i, j) && Pure(d, j, k)
  {}

  ghost predicate Classed(d: Doc) {
    d.k == S2.Kinds(d.s, d.indexes) && Unspoiled(d.s)
  }

  /** A string token. */
  lemma StringPure(d: Doc, i: nat)
    requires Classed(d) && i < |d.k| && d.k[i] == Str && StringOf(d.s, d.Pos(i)).Some?
    ensures WellFormed(StringOf(d.s, d.Pos(i)).value) <==> TokenPure(d, i)
  {
    var p := d.Pos(i);
    S2.ByteOfKind(d.s, p);
    UnescapedWellFormed(d.s, p + 1);
  }

  /** Read from tokens `i` up to `j`, what is `good` is as good as its string tokens. */
  ghost predicate AsPure(d: Doc, i: nat, j: nat, good: bool) {
    i < j <= |d.k| && (good <==> Pure(d, i, j))
  }

  lemma LastPure(d: Doc, i: nat, e: nat, good: bool)
    requires AsPure(d, i, e, good) && e < |d.k| && d.k[e] != Str
    ensures AsPure(d, i, e + 1, good)
  {
    PureOne(d, e);
    PureJoin(d, i, e, e + 1);
  }

  lemma MorePure(d: Doc, i: nat, e: nat, j: nat, good: bool, more: bool)
    requires AsPure(d, i, e, good) && e < |d.k| && d.k[e] != Str && AsPure(d, e + 1, j, more)
    ensures AsPure(d, i, j, good && more)
  {
    LastPure(d, i, e, good);
    PureJoin(d, i, e + 1, j);
  }

  lemma {:induction false} SeenPure(d: Doc, i: nat)
    requires Classed(d)
    ensures Seen(d, i).Some? ==> AsPure(d, i, Seen(d, i).value.end, Utf8Value(Seen(d, i).value.value))
    decreases if i <= |d.k| then |d.k| - i else 0, 0
  {
    if Seen(d, i).Some? {
      SeenStep(d, i);
      PureOne(d, i);
      match d.k[i]
      case Str => StringPure(d, i);
      case BeginArray => ArrayPure(d, i);
      case BeginObject => ObjectPure(d, i);
      case _ =>
    }
  }

  lemma {:induction false} ArrayPure(d: Doc, i: nat)
    requires Classed(d) && i < |d.k| && d.k[i] == BeginArray && Seen(d, i).Some?
    ensures AsPure(d, i, Seen(d, i).value.end, Utf8Value(Seen(d, i).value.value))
    decreases |d.k| - i - 1, 2
  {
    SeenStep(d, i);
    PureOne(d, i);
    if d.k[i + 1] == EndArray {
      PureOne(d, i + 1);
    } else {
      SeenElemsPure(d, i + 1);
    }
    PureJoin(d, i, i + 1, Seen(d, i).value.end);
  }

  lemma {:induction false} ObjectPure(d: Doc, i: nat)
    requires Classed(d) && i < |d.k| && d.k[i] == BeginObject && Seen(d, i).Some?
    ensures AsPure(d, i, Seen(d, i).value.end, Utf8Value(Seen(d, i).value.value))
    decreases |d.k| - i - 1, 2
  {
    SeenStep(d, i);
    PureOne(d, i);
    if d.k[i + 1] == EndObject {
      PureOne(d, i + 1);
    } else {
      SeenMembersPure(d, i + 1);
    }
    PureJoin(d, i, i + 1, Seen(d, i).value.end);
  }

  lemma Utf8ValuesBehind(d: Doc, i: nat, x: Read<Value>, rest: Option<Read<seq<Value>>>, all: Read<seq<Value>>)
    requires AsPure(d, i, x.end, Utf8Value(x.value))
    requires Some(all) == ListSeen(KindAt(d.k, x.end), EndArray, x, rest)
    requires KindAt(d.k, x.end) == Some(ValueSeparator) && rest.Some? ==>
               AsPure(d, x.end + 1, rest.value.end, Utf8Values(rest.value.value))
    ensures AsPure(d, i, all.end, Utf8Values(all.value))
  {
    if d.k[x.end] == EndArray {
      ValuesCons(x.value, []);
      assert [x.value] + [] == [x.value];
      LastPure(d, i, x.end, Utf8Value(x.value));
    } else {
      ValuesCons(x.value, rest.value.value);
      MorePure(d, i, x.end, rest.value.end, Utf8Value(x.value), Utf8Values(rest.value.value));
    }
  }

  lemma {:induction false} SeenElemsPure(d: Doc, i: nat)
    requires Classed(d)
    ensures SeenElems(d, i).Some? ==> AsPure(d, i, SeenElems(d, i).value.end, Utf8Values(SeenElems(d, i).value.value))
    decreases if i <= |d.k| then |d.k| - i else 0, 1
  {
    if SeenElems(d, i).Some? {
      var x, rest := ElemsSplit(d, i, SeenElems(d, i).value);
      SeenPure(d, i);
      if KindAt(d.k, x.end) == Some(ValueSeparator) { SeenElemsPure(d, x.end + 1); }
      Utf8ValuesBehind(d, i, x, rest, SeenElems(d, i).value);
    }
  }

  lemma ElemsSplit(d: Doc, i: nat, all: Read<seq<Value>>) returns (x: Read<Value>, rest: Option<Read<seq<Value>>>)
    requires SeenElems(d, i) == Some(all)
    ensures Seen(d, i) == Some(x) && rest == SeenElems(d, x.end + 1)
    ensures Some(all) == ListSeen(KindAt(d.k, x.end), EndArray, x, rest)
  {
    SeenElemsStep(d, i);
    x := Seen(d, i).value;
    rest := SeenElems(d, x.end + 1);
  }

  lemma NamePure(d: Doc, i: nat)
    requires Classed(d) && SeenName(d, i).Some?
    ensures i + 1 < |d.k| && d.k[i + 1] != Str && SeenName(d, i).value.end == i + 2
    ensures WellFormed(SeenName(d, i).value.value) <==> TokenPure(d, i)
  {
    StringPure(d, i);
  }

  lemma {:induction false} SeenMemberPure(d: Doc, i: nat)
    requires Classed(d)
    ensures SeenMember(d, i).Some? ==> AsPure(d, i, SeenMember(d, i).value.end, Utf8Member(SeenMember(d, i).value.value))
    decreases if i <= |d.k| then |d.k| - i else 0, 0
  {
    if SeenMember(d, i).Some? {
      NamePure(d, i);
      SeenMemberIs(d, i);
      SeenPure(d, i + 2);
      var key, v := SeenName(d, i).value, Seen(d, i + 2).value;
      assert SeenMember(d, i) == Some(Read(Member(key.value, v.value), v.end));
      NamedPure(d, i, Member(key.value, v.value), v.end);
    }
  }

  lemma NamedPure(d: Doc, i: nat, m: Member, e: nat)
    requires i + 1 < |d.k| && d.k[i + 1] != Str && (WellFormed(m.key) <==> TokenPure(d, i))
    requires AsPure(d, i + 2, e, Utf8Value(m.value))
    ensures AsPure(d, i, e, Utf8Member(m))
  {
    PureOne(d, i);
    PureOne(d, i + 1);
    PureJoin(d, i, i + 1, i + 2);
    PureJoin(d, i, i + 2, e);
  }

  ghost predicate MembersPure(d: Doc, i: nat, r: Option<Read<seq<Member>>>) {
    r.Some? ==> AsPure(d, i, r.value.end, Utf8Members(r.value.value))
  }

  lemma Utf8MembersBehind(d: Doc, i: nat, x: Read<Member>, rest: Option<Read<seq<Member>>>, all: Read<seq<Member>>)
    requires AsPure(d, i, x.end, Utf8Member(x.value))
    requires Some(all) == ListSeen(KindAt(d.k, x.end), EndObject, x, rest)
    requires KindAt(d.k, x.end) == Some(ValueSeparator) ==> MembersPure(d, x.end + 1, rest)
    ensures MembersPure(d, i, Some(all))
  {
    if d.k[x.end] == EndObject {
      MembersCons(x.value, []);
      assert [x.value] + [] == [x.value];
      LastPure(d, i, x.end, Utf8Member(x.value));
    } else {
      MembersCons(x.value, rest.value.value);
      MorePure(d, i, x.end, rest.value.end, Utf8Member(x.value), Utf8Members(rest.value.value));
    }
  }

  lemma {:induction false} SeenMembersPure(d: Doc, i: nat)
    requires Classed(d)
    ensures MembersPure(d, i, SeenMembers(d, i))
    decreases if i <= |d.k| then |d.k| - i else 0, 1
  {
    if SeenMembers(d, i).Some? {
      var x, rest := MembersSplit(d, i, SeenMembers(d, i).value);
      SeenMemberPure(d, i);
      if KindAt(d.k, x.end) == Some(ValueSeparator) { SeenMembersPure(d, x.end + 1); }
      Utf8MembersBehind(d, i, x, rest, SeenMembers(d, i).value);
    }
  }

  lemma MembersSplit(d: Doc, i: nat, all: Read<seq<Member>>) returns (x: Read<Member>, rest: Option<Read<seq<Member>>>)
    requires SeenMembers(d, i) == Some(all)
    ensures SeenMember(d, i) == Some(x) && rest == SeenMembers(d, x.end + 1)
    ensures Some(all) == ListSeen(KindAt(d.k, x.end), EndObject, x, rest)
  {
    SeenMembersStep(d, i);
    x := SeenMember(d, i).value;
    rest := SeenMembers(d, x.end + 1);
  }

  /** All strings and keys handed out are well-formed UTF-8 exactly when no string of the input has a lone low surrogate. */
  lemma ParsedStrings(s: seq<byte>)
    requires Parse(s).Some?
    ensures Utf8Value(Parse(s).value) <==> Pure(TokensOf(s), 1, |TokensOf(s).k|)
  {
    ParseIsSeen(s);
    SeenPure(TokensOf(s), 1);
  }
}
