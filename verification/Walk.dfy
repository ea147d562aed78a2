/** Steps of a cursor over the structural index of a validated document, for all the builders. */
module Walk {
  import opened Bytes
  import opened Grammar
  import opened Strings
  import opened Tape
  import opened Values
  import opened Deserializing
  import N = Numbers
  import S = Stage2

  /** From token `j` on the buffer is as it was read in. */
  ghost predicate Clean(d: Doc, buf: seq<byte>, j: nat) {
    SameFrom(d.s, buf, d.Pos(j))
  }

  /** Only bytes between tokens `i` and `j` have changed. */
  ghost predicate Kept(d: Doc, a: seq<byte>, b: seq<byte>, i: nat, j: nat) {
    |a| == |b| && forall p {:trigger b[p]} :: 0 <= p < |a| && (p < d.Pos(i) || p >= d.Pos(j)) ==> b[p] == a[p]
  }

  lemma {:induction false} PosMonotone(d: Doc, i: nat, j: nat)
    requires d.Ok() && 1 <= i <= j
    ensures d.Pos(i) <= d.Pos(j) <= |d.s|
    ensures i < |d.indexes| ==> d.Pos(i) < |d.s| && (i < j ==> d.Pos(i) < d.Pos(j))
    decreases j
  {
    if i < |d.indexes| { TokenIsOk(d, i, |d.indexes|); }
    if i < j {
      PosMonotone(d, i, j - 1);
      if j < |d.indexes| { TokenIsOk(d, j, |d.indexes|); }
    }
  }

  lemma KeptNothing(d: Doc, a: seq<byte>, i: nat, j: nat)
    ensures Kept(d, a, a, i, j)
  {}

  lemma KeptTwice(d: Doc, a: seq<byte>, b: seq<byte>, c: seq<byte>, i: nat, j: nat, l: nat, m: nat)
    requires d.Ok() && 1 <= i <= j <= m && i <= l <= m
    requires Kept(d, a, b, i, j) && Kept(d, b, c, l, m)
    ensures Kept(d, a, c, i, m)
  {
    PosMonotone(d, i, l);
    PosMonotone(d, j, m);
    forall p | 0 <= p < |a| && (p < d.Pos(i) || p >= d.Pos(m)) ensures c[p] == a[p] {
      assert b[p] == a[p];
    }
  }

  lemma CleanLater(d: Doc, buf: seq<byte>, i: nat, j: nat)
    requires d.Ok() && 1 <= i <= j && Clean(d, buf, i)
    ensures Clean(d, buf, j)
  {
    PosMonotone(d, i, j);
  }

  /** The string at token `i` has been unescaped in place. */
  ghost predicate StringDone(d: Doc, i: nat, before: seq<byte>, after: seq<byte>, r: Result<Slice>) {
    match StringOf(d.s, d.Pos(i))
    case None => r.Err?
    case Some(b) =>
      Kept(d, before, after, i, i + 1) && Clean(d, after, i + 1)
      && r == Ok(Slice(d.Pos(i) + 1, |b|)) && Shows(after, r.value, b)
      && d.Pos(i) < r.value.start + r.value.len <= d.Pos(i + 1)
  }

  /** The bytes in the slice are `b`. */
  ghost predicate Shows(buf: seq<byte>, l: Slice, b: seq<byte>) {
    l.start + l.len <= |buf| && buf[l.start..l.start + l.len] == b
  }

  lemma StringIsDone(d: Doc, i: nat, c: nat, before: seq<byte>, after: seq<byte>, r: Result<Slice>)
    requires d.Ok() && 1 <= i < |d.indexes| && Clean(d, before, i)
    requires c < |d.s| && (i + 1 < |d.indexes| ==> c < d.indexes[i + 1])
    requires Rewritten(before, after, d.Pos(i), c, r)
    ensures StringDone(d, i, before, after, r)
  {
    PosMonotone(d, i, i + 1);
    UnescapeOfSuffix(d.s, before, d.Pos(i) + 1);
    var u := Unescape(before, d.Pos(i) + 1);
    if u.Some? {
      assert d.Pos(i) + 1 + |u.value.bytes| <= c < d.Pos(i + 1);
      forall p | 0 <= p < |before| && (p < d.Pos(i) || p >= d.Pos(i + 1)) ensures after[p] == before[p] {}
      assert Kept(d, before, after, i, i + 1);
      assert Clean(d, after, i + 1) by {
        forall p | d.Pos(i + 1) <= p < |d.s| ensures d.s[p] == after[p] {
          assert before[p] == d.s[p];
        }
      }
    }
  }

  /** Every bracket below token `n` has its number of elements or members. */
  ghost predicate CountsUpTo(d: Doc, counts: seq<nat>, n: nat) {
    |counts| == |d.k| && n <= |d.k|
    && (n <= 1 || (CountsUpTo(d, counts, n - 1) && (S.IsOpening(d.k[n - 1]) ==> S.Counted(d.k, counts, n - 1))))
  }

  lemma {:induction false} CountsAreExact(d: Doc, counts: seq<nat>, n: nat)
    requires S.CountsExact(d.k, counts) && n <= |d.k|
    ensures CountsUpTo(d, counts, n)
  {
    if n > 1 { CountsAreExact(d, counts, n - 1); }
  }

  lemma {:induction false} CountAt(d: Doc, counts: seq<nat>, n: nat, i: nat)
    requires CountsUpTo(d, counts, n) && 1 <= i < n && S.IsOpening(d.k[i])
    ensures S.Counted(d.k, counts, i)
  {
    if i < n - 1 { CountAt(d, counts, n - 1, i); }
  }

  /** The cursor `de` walks the document `d`; `buf` is what its input holds. */
  ghost predicate Walks(d: Doc, de: Deserializer, buf: seq<byte>)
    reads de.input
  {
    && d.Ok() && de.Valid() && de.structuralIndexes == d.indexes && de.input[..] == buf && |buf| == |d.s|
    && CountsUpTo(d, de.counts, |d.k|)
  }

  /** The string at the cursor. */
  method ReadString(ghost d: Doc, de: Deserializer, ghost before: seq<byte>) returns (r: Result<Slice>, ghost after: seq<byte>)
    requires Walks(d, de, before) && 1 <= de.idx < |d.indexes| && de.iidx == d.indexes[de.idx]
    requires d.k[de.idx] == Str && Clean(d, before, de.idx)
    modifies de`strOffset, de.input, de.strings
    ensures Walks(d, de, after) && StringDone(d, de.idx, before, after, r)
  {
    ghost var i := de.idx;
    TokenIsOk(d, i, |d.indexes|);
    assert d.s[d.indexes[i]] == QUOTE && StringEnds(d.s, d.indexes, i);
    ghost var c :| Closing(d.s, d.indexes[i], c) && (i + 1 < |d.indexes| ==> c < d.indexes[i + 1]);
    ClosingOfSuffix(d.s, before, d.indexes[i], c);
    r := de.ParseStr(c);
    after := de.input[..];
    StringIsDone(d, i, c, before, after, r);
  }

  lemma SameSuffix(d: Doc, buf: seq<byte>, i: nat)
    requires Clean(d, buf, i) && d.Pos(i) <= |d.s|
    ensures buf[d.Pos(i)..] == d.s[d.Pos(i)..]
  {}

  /** The number at the cursor. */
  method ReadNumber(ghost d: Doc, de: Deserializer, minus: bool, ghost buf: seq<byte>) returns (r: Result<N.Number>)
    requires Walks(d, de, buf) && 1 <= de.idx < |d.indexes| && de.iidx == d.indexes[de.idx] && Clean(d, buf, de.idx)
    requires d.Pos(de.idx) <= |d.s|
    ensures match NumberOf(d.s[d.Pos(de.idx)..], minus)
            case None => r.Err?
            case Some(v) => r.Ok? && FromNumber(r.value) == v
  {
    PosMonotone(d, de.idx, de.idx);
    SameSuffix(d, buf, de.idx);
    r := de.ParseNumber(minus, buf);
  }

  // ----- trees on the tape

  /** The value at token `i` has the tree `t`. */
  ghost predicate Derives(d: Doc, t: Tree, i: nat) {
    ValueAt(d.k, i) == Some(Parsed(t, After(t, i)))
  }

  /** The token after a value. */
  function After(t: Tree, i: nat): nat {
    i + |Flatten(t)|
  }

  /** The tree of a value ends where its tokens end. */
  lemma TreeEnds(d: Doc, i: nat)
    requires ValueAt(d.k, i).Some?
    ensures Derives(d, ValueAt(d.k, i).value.tree, i) && i < After(ValueAt(d.k, i).value.tree, i) <= |d.k|
  {
    ValueSpells(d.k, i);
  }

  // ----- arrays

  /** What is left of an array at token `i`, up to the token after its bracket at `end`. */
  ghost predicate ElemsLeft(d: Doc, rest: seq<Tree>, i: nat, end: nat) {
    if rest == [] then i == end else ElemsAt(d.k, i) == Some(Parsed(rest, end))
  }

  ghost function ElemsOf(d: Doc, rest: seq<Tree>, i: nat): Option<seq<Value>> {
    if rest == [] then Some([]) else d.Elems(rest, i)
  }

  function Then<T>(head: seq<T>, rest: Option<seq<T>>): Option<seq<T>> {
    match rest
    case None => None
    case Some(x) => Some(head + x)
  }

  lemma ThenNothing(r: Option<Value>)
    ensures r.Some? ==> Then([r.value], Some([])) == Some([r.value])
  {
    if r.Some? { assert [r.value] + [] == [r.value]; }
  }

  lemma ThenTwice<T>(a: seq<T>, b: seq<T>, rest: Option<seq<T>>)
    ensures Then(a, Then(b, rest)) == Then(a + b, rest)
  {
    if rest.Some? { assert a + (b + rest.value) == a + b + rest.value; }
  }

  /** The next element, and what is left behind the token that follows it. */
  lemma ElemStep(d: Doc, rest: seq<Tree>, i: nat, end: nat)
    requires rest != [] && ElemsLeft(d, rest, i, end)
    ensures Derives(d, rest[0], i) && i < After(rest[0], i) < |d.k|
    ensures ElemsLeft(d, rest[1..], After(rest[0], i) + 1, end)
    ensures ElemsOf(d, rest, i) == match d.Interp(rest[0], i)
                                   case None => None
                                   case Some(v) => Then([v], ElemsOf(d, rest[1..], After(rest[0], i) + 1))
  {
    TreeEnds(d, i);
    var v := ValueAt(d.k, i).value;
    if d.k[v.next] == EndArray {
      assert rest == [v.tree] && rest[1..] == [];
      ThenNothing(d.Interp(v.tree, i));
    } else {
      var more := ElemsAt(d.k, v.next + 1).value.tree;
      assert rest == [v.tree] + more;
      assert rest[1..] == more;
    }
  }

  /** From token `b` on, everything up to and including token `idx` has been dealt with. */
  ghost predicate Done(d: Doc, before: seq<byte>, buf: seq<byte>, b: nat, idx: nat) {
    b <= idx && Kept(d, before, buf, b, idx + 1) && Clean(d, buf, idx + 1)
  }

  lemma DoneMore(d: Doc, a: seq<byte>, b: seq<byte>, c: seq<byte>, i: nat, j: nat, l: nat)
    requires d.Ok() && 1 <= i && j < l && Done(d, a, b, i, j) && Done(d, b, c, j + 1, l)
    ensures Done(d, a, c, i, l)
  {
    KeptTwice(d, a, b, c, i, j + 1, j + 1, l + 1);
  }

  lemma DoneSkip(d: Doc, a: seq<byte>, b: seq<byte>, i: nat, j: nat)
    requires d.Ok() && 1 <= i && Done(d, a, b, i, j)
    ensures Done(d, a, b, i, j + 1)
  {
    CleanLater(d, b, j + 1, j + 2);
    KeptNothing(d, b, j + 1, j + 2);
    KeptTwice(d, a, b, b, i, j + 1, j + 1, j + 2);
  }

  lemma DonePast(d: Doc, a: seq<byte>, b: seq<byte>, c: seq<byte>, i: nat, j: nat, l: nat)
    requires d.Ok() && 1 <= i && j < l && Done(d, a, b, i, j) && Done(d, b, c, j + 1, l)
    ensures Done(d, a, c, i, l + 1)
  {
    DoneMore(d, a, b, c, i, j, l);
    DoneSkip(d, a, c, i, l);
  }

  lemma DoneNothing(d: Doc, a: seq<byte>, i: nat)
    requires d.Ok() && 1 <= i && Clean(d, a, i)
    ensures Done(d, a, a, i, i)
  {
    CleanLater(d, a, i, i + 1);
    KeptNothing(d, a, i, i + 1);
  }

  /** `n` elements of the array at token `b` are in `res`; the cursor stands before the next, or on the bracket. */
  ghost predicate InArray(d: Doc, es: seq<Tree>, b: nat, end: nat, n: nat, res: seq<Value>, idx: nat) {
    && n <= |es| && es != [] && idx + 1 <= end <= |d.k|
    && ElemsLeft(d, es[n..], idx + 1, end)
    && d.Elems(es, b + 1) == Then(res, ElemsOf(d, es[n..], idx + 1))
  }

  lemma ArrayBegins(d: Doc, es: seq<Tree>, b: nat)
    requires es != [] && Derives(d, ArrayTree(es), b)
    ensures InArray(d, es, b, After(ArrayTree(es), b), 0, [], b)
  {
    TreeEnds(d, b);
    assert es[0..] == es;
    var rest := ElemsOf(d, es, b + 1);
    if rest.Some? { assert [] + rest.value == rest.value; }
  }

  lemma ArrayNext(d: Doc, es: seq<Tree>, b: nat, end: nat, n: nat, res: seq<Value>, idx: nat)
    requires n < |es| && InArray(d, es, b, end, n, res, idx)
    ensures Derives(d, es[n], idx + 1) && idx + 1 < After(es[n], idx + 1) < end
  {
    ElemStep(d, es[n..], idx + 1, end);
    assert es[n..][0] == es[n];
  }

  /** A refused element spoils the array. */
  lemma ArrayRefused(d: Doc, es: seq<Tree>, b: nat, end: nat, n: nat, res: seq<Value>, idx: nat)
    requires n < |es| && InArray(d, es, b, end, n, res, idx) && d.Interp(es[n], idx + 1).None?
    ensures d.Elems(es, b + 1).None?
  {
    ElemStep(d, es[n..], idx + 1, end);
    assert es[n..][0] == es[n];
  }

  lemma ArrayPushed(d: Doc, es: seq<Tree>, b: nat, end: nat, n: nat, res: seq<Value>, idx: nat, v: Value, idx2: nat)
    requires n < |es| && InArray(d, es, b, end, n, res, idx)
    requires d.Interp(es[n], idx + 1) == Some(v) && idx2 == After(es[n], idx + 1)
    ensures InArray(d, es, b, end, n + 1, res + [v], idx2)
  {
    ElemStep(d, es[n..], idx + 1, end);
    assert es[n..][0] == es[n] && es[n..][1..] == es[n + 1..];
    ThenTwice(res, [v], ElemsOf(d, es[n + 1..], idx2 + 1));
    ElemsEnd(d, es[n + 1..], idx2 + 1, end);
  }

  lemma ElemsEnd(d: Doc, rest: seq<Tree>, i: nat, end: nat)
    requires ElemsLeft(d, rest, i, end)
    ensures i <= end
  {}

  lemma ArrayEnds(d: Doc, es: seq<Tree>, b: nat, res: seq<Value>, idx: nat)
    requires InArray(d, es, b, After(ArrayTree(es), b), |es|, res, idx)
    ensures d.Interp(ArrayTree(es), b) == Some(Array(res)) && idx + 1 == After(ArrayTree(es), b)
  {
    assert es[|es|..] == [];
    assert res + [] == res;
  }

  // ----- objects

  ghost predicate MembersLeft(d: Doc, rest: seq<Tree>, i: nat, end: nat) {
    if rest == [] then i == end else MembersAt(d.k, i) == Some(Parsed(rest, end))
  }

  ghost function MembersOf(d: Doc, rest: seq<Tree>, i: nat): Option<seq<Member>> {
    if rest == [] then Some([]) else d.Members(rest, i)
  }

  /** The next name and value, and what is left behind the token that follows them. */
  lemma MemberStep(d: Doc, rest: seq<Tree>, i: nat, end: nat)
    requires rest != [] && MembersLeft(d, rest, i, end)
    ensures i + 1 < |d.k| && d.k[i] == Str && d.k[i + 1] == NameSeparator
    ensures Derives(d, rest[0], i + 2) && i + 2 < After(rest[0], i + 2) < |d.k|
    ensures MembersLeft(d, rest[1..], After(rest[0], i + 2) + 1, end)
    ensures MembersOf(d, rest, i) == match StringOf(d.s, d.Pos(i))
                                     case None => None
                                     case Some(key) =>
                                       match d.Interp(rest[0], i + 2)
                                       case None => None
                                       case Some(v) =>
                                         Then([Member(key, v)], MembersOf(d, rest[1..], After(rest[0], i + 2) + 1))
  {
    TreeEnds(d, i + 2);
    var v := ValueAt(d.k, i + 2).value;
    if d.k[v.next] == EndObject {
      assert rest == [v.tree] && rest[1..] == [];
    } else {
      var more := MembersAt(d.k, v.next + 1).value.tree;
      assert rest == [v.tree] + more;
      assert rest[1..] == more;
    }
    assert forall m: Member {:trigger [m]} :: [m] + [] == [m];
  }

  /** `n` members of the object at token `b` are in `res`; the cursor stands before the next, or on the brace. */
  ghost predicate InMap(d: Doc, ms: seq<Tree>, b: nat, end: nat, n: nat, res: seq<Member>, idx: nat) {
    && n <= |ms| && ms != [] && idx + 1 <= end <= |d.k|
    && MembersLeft(d, ms[n..], idx + 1, end)
    && d.Members(ms, b + 1) == Then(res, MembersOf(d, ms[n..], idx + 1))
  }

  lemma MapBegins(d: Doc, ms: seq<Tree>, b: nat)
    requires ms != [] && Derives(d, ObjectTree(ms), b)
    ensures InMap(d, ms, b, After(ObjectTree(ms), b), 0, [], b)
  {
    TreeEnds(d, b);
    assert ms[0..] == ms;
    var rest := MembersOf(d, ms, b + 1);
    if rest.Some? { assert [] + rest.value == rest.value; }
  }

  lemma MapNext(d: Doc, ms: seq<Tree>, b: nat, end: nat, n: nat, res: seq<Member>, idx: nat)
    requires n < |ms| && InMap(d, ms, b, end, n, res, idx)
    ensures idx + 2 < |d.k| && d.k[idx + 1] == Str
    ensures Derives(d, ms[n], idx + 3) && idx + 3 < After(ms[n], idx + 3) < end
  {
    MemberStep(d, ms[n..], idx + 1, end);
    assert ms[n..][0] == ms[n];
  }

  /** A refused name or value spoils the object. */
  lemma MapRefused(d: Doc, ms: seq<Tree>, b: nat, end: nat, n: nat, res: seq<Member>, idx: nat)
    requires n < |ms| && InMap(d, ms, b, end, n, res, idx)
    requires StringOf(d.s, d.Pos(idx + 1)).None? || d.Interp(ms[n], idx + 3).None?
    ensures d.Members(ms, b + 1).None?
  {
    MemberStep(d, ms[n..], idx + 1, end);
    assert ms[n..][0] == ms[n];
  }

  lemma MapPushed(d: Doc, ms: seq<Tree>, b: nat, end: nat, n: nat, res: seq<Member>, idx: nat,
                  m: Member, idx2: nat)
    requires n < |ms| && InMap(d, ms, b, end, n, res, idx)
    requires StringOf(d.s, d.Pos(idx + 1)) == Some(m.key) && d.Interp(ms[n], idx + 3) == Some(m.value)
    requires idx2 == After(ms[n], idx + 3)
    ensures InMap(d, ms, b, end, n + 1, res + [m], idx2)
  {
    MemberStep(d, ms[n..], idx + 1, end);
    assert ms[n..][0] == ms[n] && ms[n..][1..] == ms[n + 1..];
    ThenTwice(res, [m], MembersOf(d, ms[n + 1..], idx2 + 1));
    MembersEnd(d, ms[n + 1..], idx2 + 1, end);
  }

  lemma MembersEnd(d: Doc, rest: seq<Tree>, i: nat, end: nat)
    requires MembersLeft(d, rest, i, end)
    ensures i <= end
  {}

  lemma MapEnds(d: Doc, ms: seq<Tree>, b: nat, res: seq<Member>, idx: nat)
    requires InMap(d, ms, b, After(ObjectTree(ms), b), |ms|, res, idx)
    ensures d.Interp(ObjectTree(ms), b) == Some(Object(res)) && idx + 1 == After(ObjectTree(ms), b)
  {
    assert ms[|ms|..] == [];
    assert res + [] == res;
  }

  // ----- scalars

  /** The byte at the cursor tells the kind of value. */
  lemma FirstByte(d: Doc, t: Tree, i: nat, buf: seq<byte>)
    requires d.Ok() && 1 <= i && Derives(d, t, i) && Clean(d, buf, i)
    ensures i < |d.k| && d.Pos(i) < |buf| && buf[d.Pos(i)] == At(d.s, d.Pos(i)) && d.k[i] == S.KindAt(d.s, d.Pos(i))
    ensures t.StrTree? ==> buf[d.Pos(i)] == QUOTE && d.k[i] == Str
    ensures t.PrimTree? ==> buf[d.Pos(i)] == MINUS || IsDigit(buf[d.Pos(i)])
                            || buf[d.Pos(i)] == LOWER_T || buf[d.Pos(i)] == LOWER_F || buf[d.Pos(i)] == LOWER_N
    ensures t.ArrayTree? ==> buf[d.Pos(i)] == LBRACKET
    ensures t.ObjectTree? ==> buf[d.Pos(i)] == LBRACE
    ensures t.StrTree? || t.PrimTree? ==> After(t, i) == i + 1
  {
    TokenIsOk(d, i, |d.indexes|);
    TreeEnds(d, i);
  }

  /** The counts are the lengths of the lists in the tree. */
  lemma CountIs(d: Doc, t: Tree, i: nat, counts: seq<nat>)
    requires d.Ok() && 1 <= i && Derives(d, t, i) && CountsUpTo(d, counts, |d.k|)
    ensures i < |counts|
    ensures t.ArrayTree? ==> counts[i] == |t.elems|
    ensures t.ObjectTree? ==> counts[i] == |t.members|
  {
    TreeEnds(d, i);
    if t.ArrayTree? || t.ObjectTree? { CountAt(d, counts, |d.k|, i); }
  }
}
