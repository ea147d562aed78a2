/** The builder of borrowed values: strings stay in the input buffer, as slices of what was written back there. */
module Borrowed {
  import opened Bytes
  import opened Grammar
  import opened Walk
  import opened Deserializing
  import opened Documents
  import N = Numbers
  import V = Values

  datatype Value =
    | Null
    | Bool(b: bool)
    | I64(i: int)
    | F64(f: real)
    | String(at: Slice)
    | Array(elems: seq<Value>)
    | Object(members: seq<Member>)

  datatype Member = Member(key: Slice, value: Value)

  function FromNumber(n: N.Number): Value {
    match n
    case I64(i) => I64(i)
    case F64(f) => F64(f)
  }

  function Cut(buf: seq<byte>, l: Slice): seq<byte> {
    if l.start + l.len <= |buf| then buf[l.start..l.start + l.len] else []
  }

  /** What a borrowed value shows, given the contents of the buffer. */
  function Resolve(v: Value, buf: seq<byte>): V.Value {
    match v
    case Null => V.Null
    case Bool(b) => V.Bool(b)
    case I64(i) => V.I64(i)
    case F64(f) => V.F64(f)
    case String(l) => V.String(Cut(buf, l))
    case Array(es) => V.Array(seq(|es|, i requires 0 <= i < |es| => Resolve(es[i], buf)))
    case Object(ms) => V.Object(seq(|ms|, i requires 0 <= i < |ms| => V.Member(Cut(buf, ms[i].key), Resolve(ms[i].value, buf))))
  }

  /** The two values are built alike and differ only in that one has slices for strings. */
  predicate SameShape(v: Value, w: V.Value) {
    && (v.Null? <==> w.Null?) && (v.Bool? <==> w.Bool?) && (v.I64? <==> w.I64?) && (v.F64? <==> w.F64?)
    && (v.String? <==> w.String?) && (v.Array? <==> w.Array?) && (v.Object? <==> w.Object?)
    && (v.Bool? ==> v.b == w.b) && (v.I64? ==> v.i == w.i) && (v.F64? ==> v.f == w.f)
    && (v.Array? ==> |v.elems| == |w.elems| && forall i :: 0 <= i < |v.elems| ==> SameShape(v.elems[i], w.elems[i]))
    && (v.Object? ==> |v.members| == |w.members|
                      && forall i :: 0 <= i < |v.members| ==> SameShape(v.members[i].value, w.members[i].value))
  }

  /** What a borrowed value shows is built like itself, whatever the buffer holds. */
  lemma {:induction false} ResolveShape(v: Value, buf: seq<byte>)
    ensures SameShape(v, Resolve(v, buf))
  {
    match v
    case Array(es) => forall i | 0 <= i < |es| ensures SameShape(es[i], Resolve(es[i], buf)) { ResolveShape(es[i], buf); }
    case Object(ms) =>
      forall i | 0 <= i < |ms| ensures SameShape(ms[i].value, Resolve(ms[i].value, buf)) { ResolveShape(ms[i].value, buf); }
    case _ =>
  }

  function ResolveAll(es: seq<Value>, buf: seq<byte>): seq<V.Value> {
    seq(|es|, i requires 0 <= i < |es| => Resolve(es[i], buf))
  }

  function ResolveMember(m: Member, buf: seq<byte>): V.Member {
    V.Member(Cut(buf, m.key), Resolve(m.value, buf))
  }

  function ResolveMembers(ms: seq<Member>, buf: seq<byte>): seq<V.Member> {
    seq(|ms|, i requires 0 <= i < |ms| => ResolveMember(ms[i], buf))
  }

  /** All slices in `v` end at or before position `hi`. */
  predicate Before(v: Value, hi: nat) {
    match v
    case String(l) => l.start + l.len <= hi
    case Array(es) => forall i :: 0 <= i < |es| ==> Before(es[i], hi)
    case Object(ms) => forall i :: 0 <= i < |ms| ==> MemberBefore(ms[i], hi)
    case _ => true
  }

  predicate MemberBefore(m: Member, hi: nat) {
    m.key.start + m.key.len <= hi && Before(m.value, hi)
  }

  /** The buffers agree below position `hi`. */
  ghost predicate SameBelow(a: seq<byte>, b: seq<byte>, hi: nat) {
    |a| == |b| && hi <= |a| && a[..hi] == b[..hi]
  }

  lemma CutStable(a: seq<byte>, b: seq<byte>, l: Slice, hi: nat)
    requires SameBelow(a, b, hi) && l.start + l.len <= hi
    ensures Cut(a, l) == Cut(b, l)
  {
    assert a[l.start..l.start + l.len] == a[..hi][l.start..l.start + l.len];
    assert b[l.start..l.start + l.len] == b[..hi][l.start..l.start + l.len];
  }

  /** Writing at or above `hi` does not change what a value below shows. */
  lemma {:induction false} ResolveStable(v: Value, a: seq<byte>, b: seq<byte>, hi: nat)
    requires SameBelow(a, b, hi) && Before(v, hi)
    ensures Resolve(v, a) == Resolve(v, b)
  {
    match v
    case String(l) => CutStable(a, b, l, hi);
    case Array(es) =>
      forall i | 0 <= i < |es| ensures Resolve(es[i], a) == Resolve(es[i], b) {
        ResolveStable(es[i], a, b, hi);
      }
    case Object(ms) =>
      forall i | 0 <= i < |ms| ensures ResolveMember(ms[i], a) == ResolveMember(ms[i], b) {
        assert MemberBefore(ms[i], hi);
        CutStable(a, b, ms[i].key, hi);
        ResolveStable(ms[i].value, a, b, hi);
      }
      assert Resolve(v, a).members == Resolve(v, b).members;
    case _ =>
  }

  lemma {:induction false} BeforeLater(v: Value, lo: nat, hi: nat)
    requires lo <= hi && Before(v, lo)
    ensures Before(v, hi)
  {
    match v
    case Array(es) =>
      forall i | 0 <= i < |es| ensures Before(es[i], hi) { BeforeLater(es[i], lo, hi); }
    case Object(ms) =>
      forall i | 0 <= i < |ms| ensures MemberBefore(ms[i], hi) {
        assert MemberBefore(ms[i], lo);
        BeforeLater(ms[i].value, lo, hi);
      }
    case _ =>
  }

  ghost predicate AllBefore(es: seq<Value>, hi: nat) {
    forall i :: 0 <= i < |es| ==> Before(es[i], hi)
  }

  ghost predicate MembersBefore(ms: seq<Member>, hi: nat) {
    forall i :: 0 <= i < |ms| ==> MemberBefore(ms[i], hi)
  }

  /** The value at token `i` has been built, shows what the tree stands for, and lies behind the cursor. */
  ghost predicate Built(d: V.Doc, t: Tree, i: nat, before: seq<byte>, after: seq<byte>, idx: nat, r: Result<Value>) {
    match d.Interp(t, i)
    case None => r.Err?
    case Some(v) =>
      r.Ok? && Resolve(r.value, after) == v && Before(r.value, d.Pos(idx + 1))
      && idx + 1 == After(t, i) && Done(d, before, after, i, idx)
  }

  lemma BelowKept(d: V.Doc, a: seq<byte>, b: seq<byte>, i: nat, j: nat)
    requires d.Ok() && 1 <= i && |a| == |d.s| && Done(d, a, b, i, j)
    ensures SameBelow(a, b, d.Pos(i))
  {
    PosMonotone(d, i, i);
  }

  /** The elements built so far still show the same, and lie below the next token. */
  lemma ElementsStable(d: V.Doc, res: seq<Value>, a: seq<byte>, b: seq<byte>, i: nat, j: nat)
    requires d.Ok() && 1 <= i <= j && |a| == |d.s| && Done(d, a, b, i, j) && AllBefore(res, d.Pos(i))
    ensures ResolveAll(res, b) == ResolveAll(res, a) && AllBefore(res, d.Pos(j + 2))
  {
    BelowKept(d, a, b, i, j);
    PosMonotone(d, i, j + 2);
    forall k | 0 <= k < |res| ensures Resolve(res[k], a) == Resolve(res[k], b) && Before(res[k], d.Pos(j + 2)) {
      ResolveStable(res[k], a, b, d.Pos(i));
      BeforeLater(res[k], d.Pos(i), d.Pos(j + 2));
    }
  }

  lemma ElementDone(d: V.Doc, es: seq<Tree>, n: nat, b: nat, end: nat, res: seq<Value>, idx: nat,
                    before: seq<byte>, was: seq<byte>, after: seq<byte>, idx2: nat, v: Value)
    requires d.Ok() && 1 <= b && n < |es| && |was| == |d.s| && Done(d, before, was, b, idx)
    requires InArray(d, es, b, end, n, ResolveAll(res, was), idx) && AllBefore(res, d.Pos(idx + 1))
    requires Built(d, es[n], idx + 1, was, after, idx2, Ok(v))
    ensures idx2 + 1 < |d.k| && InArray(d, es, b, end, n + 1, ResolveAll(res + [v], after), idx2 + 1)
    ensures AllBefore(res + [v], d.Pos(idx2 + 2)) && Done(d, before, after, b, idx2 + 1)
  {
    ArrayNext(d, es, b, end, n, ResolveAll(res, was), idx);
    ArrayPushed(d, es, b, end, n, ResolveAll(res, was), idx, Resolve(v, after), idx2 + 1);
    ElementsStable(d, res, was, after, idx + 1, idx2);
    assert ResolveAll(res + [v], after) == ResolveAll(res, was) + [Resolve(v, after)];
    PosMonotone(d, idx2 + 1, idx2 + 2);
    BeforeLater(v, d.Pos(idx2 + 1), d.Pos(idx2 + 2));
    DonePast(d, before, was, after, b, idx, idx2);
  }

  lemma MembersStable(d: V.Doc, res: seq<Member>, a: seq<byte>, b: seq<byte>, i: nat, j: nat, l: nat)
    requires d.Ok() && 1 <= i <= j <= l && |a| == |d.s| && Done(d, a, b, i, j) && MembersBefore(res, d.Pos(i))
    ensures ResolveMembers(res, b) == ResolveMembers(res, a) && MembersBefore(res, d.Pos(l))
  {
    BelowKept(d, a, b, i, j);
    PosMonotone(d, i, l);
    forall k | 0 <= k < |res| ensures ResolveMember(res[k], a) == ResolveMember(res[k], b) && MemberBefore(res[k], d.Pos(l)) {
      assert MemberBefore(res[k], d.Pos(i));
      CutStable(a, b, res[k].key, d.Pos(i));
      ResolveStable(res[k].value, a, b, d.Pos(i));
      BeforeLater(res[k].value, d.Pos(i), d.Pos(l));
    }
  }

  lemma MemberShows(d: V.Doc, tree: Tree, i: nat, mid: seq<byte>, after: seq<byte>, idx2: nat, m: Member)
    requires d.Ok() && 1 <= i && |mid| == |d.s| && Built(d, tree, i + 2, mid, after, idx2, Ok(m.value))
    requires V.StringOf(d.s, d.Pos(i)) == Some(Cut(mid, m.key)) && m.key.start + m.key.len <= d.Pos(i + 2)
    ensures V.StringOf(d.s, d.Pos(i)) == Some(ResolveMember(m, after).key) && MemberBefore(m, d.Pos(idx2 + 2))
  {
    BelowKept(d, mid, after, i + 2, idx2);
    CutStable(mid, after, m.key, d.Pos(i + 2));
    MemberBehind(d, i + 2, idx2, m);
  }

  lemma MemberBehind(d: V.Doc, i: nat, idx2: nat, m: Member)
    requires d.Ok() && 1 <= i <= idx2 && m.key.start + m.key.len <= d.Pos(i) && Before(m.value, d.Pos(idx2 + 1))
    ensures MemberBefore(m, d.Pos(idx2 + 2))
  {
    PosMonotone(d, i, idx2 + 2);
    PosMonotone(d, idx2 + 1, idx2 + 2);
    BeforeLater(m.value, d.Pos(idx2 + 1), d.Pos(idx2 + 2));
  }

  /** A name has been read: the members before it still show the same, and its value is next. */
  ghost predicate KeyRead(d: V.Doc, ms: seq<Tree>, n: nat, b: nat, end: nat, res: seq<Member>, idx: nat,
                          before: seq<byte>, mid: seq<byte>, key: Slice)
  {
    && n < |ms| && |mid| == |d.s| && Done(d, before, mid, b, idx + 2)
    && InMap(d, ms, b, end, n, ResolveMembers(res, mid), idx) && MembersBefore(res, d.Pos(idx + 3))
    && V.StringOf(d.s, d.Pos(idx + 1)) == Some(Cut(mid, key)) && key.start + key.len <= d.Pos(idx + 3)
  }

  /** A new member behind the others, which show what they did. */
  lemma MembersGrow(d: V.Doc, res: seq<Member>, a: seq<byte>, b: seq<byte>, i: nat, j: nat, m: Member)
    requires d.Ok() && 1 <= i <= j && |a| == |d.s| && Done(d, a, b, i, j) && MembersBefore(res, d.Pos(i))
    requires MemberBefore(m, d.Pos(j + 2))
    ensures ResolveMembers(res + [m], b) == ResolveMembers(res, a) + [ResolveMember(m, b)]
    ensures MembersBefore(res + [m], d.Pos(j + 2))
  {
    MembersStable(d, res, a, b, i, j, j + 2);
    assert ResolveMembers(res + [m], b) == ResolveMembers(res, b) + [ResolveMember(m, b)];
  }

  lemma MemberDone(d: V.Doc, ms: seq<Tree>, n: nat, b: nat, end: nat, res: seq<Member>, idx: nat,
                   before: seq<byte>, mid: seq<byte>, after: seq<byte>, idx2: nat, m: Member)
    requires d.Ok() && 1 <= b && KeyRead(d, ms, n, b, end, res, idx, before, mid, m.key)
    requires Built(d, ms[n], idx + 3, mid, after, idx2, Ok(m.value))
    ensures idx2 + 1 < |d.k| && InMap(d, ms, b, end, n + 1, ResolveMembers(res + [m], after), idx2 + 1)
    ensures MembersBefore(res + [m], d.Pos(idx2 + 2)) && Done(d, before, after, b, idx2 + 1)
  {
    var shown := ResolveMembers(res, mid);
    MemberShows(d, ms[n], idx + 1, mid, after, idx2, m);
    MapNext(d, ms, b, end, n, shown, idx);
    MapPushed(d, ms, b, end, n, shown, idx, ResolveMember(m, after), idx2 + 1);
    MembersGrow(d, res, mid, after, idx + 3, idx2, m);
    DonePast(d, before, mid, after, b, idx + 2, idx2);
  }

  lemma KeyDone(d: V.Doc, ms: seq<Tree>, n: nat, b: nat, end: nat, res: seq<Member>, idx: nat,
                before: seq<byte>, was: seq<byte>, mid: seq<byte>, r: Result<Slice>)
    requires d.Ok() && 1 <= b && n < |ms| && |was| == |d.s| && |mid| == |d.s| && Done(d, before, was, b, idx)
    requires InMap(d, ms, b, end, n, ResolveMembers(res, was), idx) && MembersBefore(res, d.Pos(idx + 1))
    requires r.Ok? && StringDone(d, idx + 1, was, mid, r)
    ensures KeyRead(d, ms, n, b, end, res, idx, before, mid, r.value)
  {
    PosMonotone(d, idx + 2, idx + 3);
    DoneMore(d, before, was, mid, b, idx, idx + 1);
    DoneSkip(d, before, mid, b, idx + 1);
    MembersStable(d, res, was, mid, idx + 1, idx + 1, idx + 3);
  }

  lemma ArrayShows(d: V.Doc, t: Tree, b: nat, res: seq<Value>, before: seq<byte>, buf: seq<byte>, idx: nat)
    requires t.ArrayTree? && InArray(d, t.elems, b, After(t, b), |t.elems|, ResolveAll(res, buf), idx)
    requires AllBefore(res, d.Pos(idx + 1)) && Done(d, before, buf, b, idx)
    ensures Built(d, t, b, before, buf, idx, Ok(Array(res)))
  {
    ArrayEnds(d, t.elems, b, ResolveAll(res, buf), idx);
    assert Resolve(Array(res), buf) == V.Array(ResolveAll(res, buf));
  }

  lemma MapShows(d: V.Doc, t: Tree, b: nat, res: seq<Member>, before: seq<byte>, buf: seq<byte>, idx: nat)
    requires t.ObjectTree? && InMap(d, t.members, b, After(t, b), |t.members|, ResolveMembers(res, buf), idx)
    requires MembersBefore(res, d.Pos(idx + 1)) && Done(d, before, buf, b, idx)
    ensures Built(d, t, b, before, buf, idx, Ok(Object(res)))
  {
    MapEnds(d, t.members, b, ResolveMembers(res, buf), idx);
    assert Resolve(Object(res), buf).members == ResolveMembers(res, buf);
  }

  class BorrowDeserializer {
    const de: Deserializer

    constructor (de: Deserializer)
      ensures this.de == de
    {
      this.de := de;
    }

    /** The value behind the cursor. */
    method ParseValue(ghost d: V.Doc, ghost t: Tree, ghost before: seq<byte>) returns (r: Result<Value>, ghost after: seq<byte>)
      requires Walks(d, de, before)
      requires Derives(d, t, de.idx + 1) && Clean(d, before, de.idx + 1)
      modifies de, de.input, de.strings
      ensures Walks(d, de, after) && Built(d, t, old(de.idx) + 1, before, after, de.idx, r)
      decreases t, 1
    {
      ghost var i := de.idx + 1;
      FirstByte(d, t, i, before);
      DoneNothing(d, before, i);
      var c := de.Next();
      after := before;
      if c == QUOTE {
        var l;
        l, after := ReadString(d, de, before);
        r := if l.Ok? then Ok(String(l.value)) else Err(l.error);
      } else if c == MINUS || IsDigit(c) {
        var n := ReadNumber(d, de, c == MINUS, before);
        r := if n.Ok? then Ok(FromNumber(n.value)) else Err(n.error);
      } else if c == LOWER_N {
        r := Ok(Null);
      } else if c == LOWER_T {
        r := Ok(Bool(true));
      } else if c == LOWER_F {
        r := Ok(Bool(false));
      } else if c == LBRACKET {
        r, after := ParseArray(d, t, before);
      } else if c == LBRACE {
        r, after := ParseMap(d, t, before);
      } else {
        r := Err(UnexpectedCharacter);
        assert false;
      }
    }

    /** One element: the cursor goes from the token before it to the token behind it. */
    method ParseElement(ghost d: V.Doc, ghost es: seq<Tree>, ghost n: nat, ghost b: nat, ghost end: nat, ghost res: seq<Value>,
                        ghost before: seq<byte>, ghost was: seq<byte>)
      returns (r: Result<Value>, ghost after: seq<byte>)
      requires Walks(d, de, was) && Done(d, before, was, b, de.idx)
      requires 1 <= b && n < |es| && InArray(d, es, b, end, n, ResolveAll(res, was), de.idx)
      requires AllBefore(res, d.Pos(de.idx + 1))
      modifies de, de.input, de.strings
      ensures Walks(d, de, after)
      ensures r.Err? ==> d.Elems(es, b + 1).None?
      ensures r.Ok? ==> InArray(d, es, b, end, n + 1, ResolveAll(res + [r.value], after), de.idx)
      ensures r.Ok? ==> AllBefore(res + [r.value], d.Pos(de.idx + 1)) && Done(d, before, after, b, de.idx)
      decreases es, 0
    {
      ghost var idx := de.idx;
      ArrayNext(d, es, b, end, n, ResolveAll(res, was), idx);
      r, after := ParseValue(d, es[n], was);
      if r.Err? {
        ArrayRefused(d, es, b, end, n, ResolveAll(res, was), idx);
        return;
      }
      ghost var v := r.value;
      ElementDone(d, es, n, b, end, res, idx, before, was, after, de.idx, v);
      de.Skip();
    }

    /** The array at the cursor, by its count. */
    method ParseArray(ghost d: V.Doc, ghost t: Tree, ghost before: seq<byte>) returns (r: Result<Value>, ghost after: seq<byte>)
      requires Walks(d, de, before)
      requires 1 <= de.idx && Derives(d, t, de.idx) && t.ArrayTree? && Clean(d, before, de.idx)
      modifies de, de.input, de.strings
      ensures Walks(d, de, after) && Built(d, t, old(de.idx), before, after, de.idx, r)
      decreases t, 0
    {
      ghost var b, end := de.idx, After(t, de.idx);
      after := before;
      CountIs(d, t, b, de.counts);
      DoneNothing(d, before, b);
      TreeEnds(d, b);
      var es := de.CountElements();
      if es == 0 {
        de.Skip();
        DoneSkip(d, before, before, b, b);
        return Ok(Array([])), after;
      }
      var res: seq<Value> := [];
      ArrayBegins(d, t.elems, b);
      assert ResolveAll(res, before) == [];
      for n := 0 to es
        invariant Walks(d, de, after) && Done(d, before, after, b, de.idx)
        invariant InArray(d, t.elems, b, end, n, ResolveAll(res, after), de.idx)
        invariant AllBefore(res, d.Pos(de.idx + 1))
      {
        var v;
        v, after := ParseElement(d, t.elems, n, b, end, res, before, after);
        if v.Err? {
          return Err(v.error), after;
        }
        res := res + [v.value];
      }
      ArrayShows(d, t, b, res, before, after, de.idx);
      r := Ok(Array(res));
    }

    /** The name behind the cursor; the cursor goes on to the colon. */
    method ParseKey(ghost d: V.Doc, ghost ms: seq<Tree>, ghost n: nat, ghost b: nat, ghost end: nat, ghost res: seq<Member>,
                    ghost before: seq<byte>, ghost was: seq<byte>)
      returns (r: Result<Slice>, ghost after: seq<byte>)
      requires Walks(d, de, was) && Done(d, before, was, b, de.idx)
      requires 1 <= b && n < |ms| && InMap(d, ms, b, end, n, ResolveMembers(res, was), de.idx)
      requires MembersBefore(res, d.Pos(de.idx + 1))
      modifies de, de.input, de.strings
      ensures Walks(d, de, after)
      ensures r.Err? ==> V.StringOf(d.s, d.Pos(old(de.idx) + 1)).None?
      ensures r.Ok? ==> de.idx == old(de.idx) + 2 && KeyRead(d, ms, n, b, end, res, old(de.idx), before, after, r.value)
    {
      MapNext(d, ms, b, end, n, ResolveMembers(res, was), de.idx);
      de.Skip();
      r, after := ReadString(d, de, was);
      if r.Err? {
        return;
      }
      KeyDone(d, ms, n, b, end, res, de.idx - 1, before, was, after, r);
      de.Skip();
    }

    /** One name and its value: the cursor goes from the token before it to the token behind it. */
    method ParseMember(ghost d: V.Doc, ghost ms: seq<Tree>, ghost n: nat, ghost b: nat, ghost end: nat, ghost res: seq<Member>,
                       ghost before: seq<byte>, ghost was: seq<byte>)
      returns (r: Result<Member>, ghost after: seq<byte>)
      requires Walks(d, de, was) && Done(d, before, was, b, de.idx)
      requires 1 <= b && n < |ms| && InMap(d, ms, b, end, n, ResolveMembers(res, was), de.idx)
      requires MembersBefore(res, d.Pos(de.idx + 1))
      modifies de, de.input, de.strings
      ensures Walks(d, de, after)
      ensures r.Err? ==> d.Members(ms, b + 1).None?
      ensures r.Ok? ==> InMap(d, ms, b, end, n + 1, ResolveMembers(res + [r.value], after), de.idx)
      ensures r.Ok? ==> MembersBefore(res + [r.value], d.Pos(de.idx + 1)) && Done(d, before, after, b, de.idx)
      decreases ms, 1
    {
      ghost var idx := de.idx;
      var key;
      key, after := ParseKey(d, ms, n, b, end, res, before, was);
      if key.Err? {
        MapRefused(d, ms, b, end, n, ResolveMembers(res, was), idx);
        return Err(key.error), after;
      }
      r, after := ParseNamed(d, ms, n, b, end, res, idx, before, after, key.value);
    }

    /** The value behind a name and its colon. */
    method ParseNamed(ghost d: V.Doc, ghost ms: seq<Tree>, ghost n: nat, ghost b: nat, ghost end: nat, ghost res: seq<Member>,
                      ghost idx: nat, ghost before: seq<byte>, ghost mid: seq<byte>, key: Slice)
      returns (r: Result<Member>, ghost after: seq<byte>)
      requires Walks(d, de, mid) && 1 <= b && de.idx == idx + 2 && KeyRead(d, ms, n, b, end, res, idx, before, mid, key)
      modifies de, de.input, de.strings
      ensures Walks(d, de, after)
      ensures r.Err? ==> d.Members(ms, b + 1).None?
      ensures r.Ok? ==> InMap(d, ms, b, end, n + 1, ResolveMembers(res + [r.value], after), de.idx)
      ensures r.Ok? ==> MembersBefore(res + [r.value], d.Pos(de.idx + 1)) && Done(d, before, after, b, de.idx)
      decreases ms, 0
    {
      MapNext(d, ms, b, end, n, ResolveMembers(res, mid), idx);
      var v;
      v, after := ParseValue(d, ms[n], mid);
      if v.Err? {
        MapRefused(d, ms, b, end, n, ResolveMembers(res, mid), idx);
        return Err(v.error), after;
      }
      var m := Member(key, v.value);
      MemberDone(d, ms, n, b, end, res, idx, before, mid, after, de.idx, m);
      de.Skip();
      r := Ok(m);
    }

    /** The object at the cursor, by its count. */
    method ParseMap(ghost d: V.Doc, ghost t: Tree, ghost before: seq<byte>) returns (r: Result<Value>, ghost after: seq<byte>)
      requires Walks(d, de, before)
      requires 1 <= de.idx && Derives(d, t, de.idx) && t.ObjectTree? && Clean(d, before, de.idx)
      modifies de, de.input, de.strings
      ensures Walks(d, de, after) && Built(d, t, old(de.idx), before, after, de.idx, r)
      decreases t, 0
    {
      ghost var b, end := de.idx, After(t, de.idx);
      after := before;
      CountIs(d, t, b, de.counts);
      DoneNothing(d, before, b);
      TreeEnds(d, b);
      var es := de.CountElements();
      if es == 0 {
        de.Skip();
        DoneSkip(d, before, before, b, b);
        return Ok(Object([])), after;
      }
      var res: seq<Member> := [];
      MapBegins(d, t.members, b);
      assert ResolveMembers(res, before) == [];
      for n := 0 to es
        invariant Walks(d, de, after) && Done(d, before, after, b, de.idx)
        invariant InMap(d, t.members, b, end, n, ResolveMembers(res, after), de.idx)
        invariant MembersBefore(res, d.Pos(de.idx + 1))
      {
        var m;
        m, after := ParseMember(d, t.members, n, b, end, res, before, after);
        if m.Err? {
          return Err(m.error), after;
        }
        res := res + [m.value];
      }
      MapShows(d, t, b, res, before, after, de.idx);
      r := Ok(Object(res));
    }
  }

  /** Parses an input into a value that refers to the buffer, which then shows exactly what the owned parser returns. */
  method ToValue(input: array<byte>, swar: bool) returns (r: Result<Value>)
    requires Followed(input[..])
    modifies input
    ensures match ValueOf(old(input[..]))
            case None => r.Err?
            case Some(v) => r.Ok? && Resolve(r.value, input[..]) == v && Before(r.value, input.Length)
  {
    var de;
    ghost var d, t, after;
    ghost var s := input[..];
    de, d, t := Start(input, swar);
    if de.Err? {
      return Err(de.error);
    }
    var borrowed := new BorrowDeserializer(de.value);
    r, after := borrowed.ParseValue(d, t, s);
  }
}
