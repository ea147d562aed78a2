/** The serde interface: sequence and map access over the same cursor, and reading any value through them. */
module Serde {
  import opened Bytes
  import opened Grammar
  import opened Values
  import opened Walk
  import opened Deserializing
  import opened Documents

  // ----- maps that keep one value per key

  /** Position of the first member with this key, or the length. */
  function IndexOf(ms: seq<Member>, key: seq<byte>): (i: nat)
    ensures i <= |ms|
  {
    if ms == [] || ms[0].key == key then 0 else 1 + IndexOf(ms[1..], key)
  }

  lemma {:induction false} IndexOfExact(ms: seq<Member>, key: seq<byte>)
    ensures var i := IndexOf(ms, key);
            (i < |ms| ==> ms[i].key == key) && forall j :: 0 <= j < i ==> ms[j].key != key
  {
    if ms != [] && ms[0].key != key {
      IndexOfExact(ms[1..], key);
      var i := IndexOf(ms, key);
      forall j | 0 <= j < i ensures ms[j].key != key {
        if j > 0 { assert ms[j] == ms[1..][j - 1]; }
      }
    }
  }

  /** Puts in a member, in place of one with the same key. */
  function Insert(ms: seq<Member>, m: Member): seq<Member> {
    var i := IndexOf(ms, m.key);
    if i < |ms| then ms[i := m] else ms + [m]
  }

  function InsertAll(ms: seq<Member>): seq<Member> {
    if ms == [] then [] else Insert(InsertAll(ms[..|ms| - 1]), ms[|ms| - 1])
  }

  /** The value with only the last of the members of the same name kept, all the way down. */
  function LastWins(v: Value): Value {
    match v
    case Array(es) => Array(seq(|es|, i requires 0 <= i < |es| => LastWins(es[i])))
    case Object(ms) => Object(InsertAll(seq(|ms|, i requires 0 <= i < |ms| => Member(ms[i].key, LastWins(ms[i].value)))))
    case _ => v
  }

  function AllLastWin(es: seq<Value>): seq<Value> {
    seq(|es|, i requires 0 <= i < |es| => LastWins(es[i]))
  }

  function MembersLastWin(ms: seq<Member>): seq<Member> {
    seq(|ms|, i requires 0 <= i < |ms| => Member(ms[i].key, LastWins(ms[i].value)))
  }

  /** No object in the value has two members of the same name. */
  predicate UniqueKeys(v: Value) {
    match v
    case Array(es) => forall i :: 0 <= i < |es| ==> UniqueKeys(es[i])
    case Object(ms) => Distinct(ms) && forall i :: 0 <= i < |ms| ==> UniqueKeys(ms[i].value)
    case _ => true
  }

  predicate Distinct(ms: seq<Member>) {
    forall i, j :: 0 <= i < j < |ms| ==> ms[i].key != ms[j].key
  }

  lemma {:induction false} InsertDistinct(ms: seq<Member>)
    requires Distinct(ms)
    ensures InsertAll(ms) == ms
  {
    if ms != [] {
      var n := |ms| - 1;
      InsertDistinct(ms[..n]);
      IndexOfExact(ms[..n], ms[n].key);
      assert IndexOf(ms[..n], ms[n].key) == n;
      assert ms == ms[..n] + [ms[n]];
    }
  }

  lemma {:induction false} InsertAllDistinct(ms: seq<Member>)
    ensures Distinct(InsertAll(ms))
  {
    if ms != [] {
      var n := |ms| - 1;
      InsertAllDistinct(ms[..n]);
      IndexOfExact(InsertAll(ms[..n]), ms[n].key);
    }
  }

  /** Nothing is lost exactly when no object in the value repeats a key. */
  lemma {:induction false} LastWinsExact(v: Value)
    ensures LastWins(v) == v <==> UniqueKeys(v)
  {
    match v
    case Array(es) =>
      forall i | 0 <= i < |es| ensures LastWins(es[i]) == es[i] <==> UniqueKeys(es[i]) { LastWinsExact(es[i]); }
      EachKept(es);
    case Object(ms) =>
      forall i | 0 <= i < |ms| ensures LastWins(ms[i].value) == ms[i].value <==> UniqueKeys(ms[i].value) {
        LastWinsExact(ms[i].value);
      }
      EachMemberKept(ms);
    case _ =>
  }

  lemma EachKept(es: seq<Value>)
    ensures AllLastWin(es) == es <==> forall i :: 0 <= i < |es| ==> LastWins(es[i]) == es[i]
  {
    if AllLastWin(es) == es {
      forall i | 0 <= i < |es| ensures LastWins(es[i]) == es[i] { assert AllLastWin(es)[i] == es[i]; }
    }
  }

  lemma EachMemberKept(ms: seq<Member>)
    ensures InsertAll(MembersLastWin(ms)) == ms <==>
            Distinct(ms) && forall i :: 0 <= i < |ms| ==> LastWins(ms[i].value) == ms[i].value
  {
    var won := MembersLastWin(ms);
    if InsertAll(won) == ms { InsertAllDistinct(won); }
    if Distinct(ms) {
      InsertDistinct(won);
      if won == ms {
        forall i | 0 <= i < |ms| ensures LastWins(ms[i].value) == ms[i].value { assert won[i] == ms[i]; }
      }
    }
  }

  lemma InsertNext(res: seq<Member>, m: Member)
    ensures InsertAll(MembersLastWin(res + [m]))
            == Insert(InsertAll(MembersLastWin(res)), Member(m.key, LastWins(m.value)))
  {
    var all := MembersLastWin(res + [m]);
    assert all[..|all| - 1] == MembersLastWin(res);
  }

  // ----- what stays of repeated keys

  /** Member `i` is the last of its name. */
  predicate LastAt(ms: seq<Member>, i: nat) {
    i < |ms| && forall j :: i < j < |ms| ==> ms[j].key != ms[i].key
  }

  predicate HasKey(ms: seq<Member>, key: seq<byte>) {
    exists i :: 0 <= i < |ms| && ms[i].key == key
  }

  /** `m` is the last member of its name. */
  ghost predicate IsLast(ms: seq<Member>, m: Member) {
    exists i: nat :: LastAt(ms, i) && ms[i] == m
  }

  /** Inserting one puts the new member in and keeps exactly the members of other names. */
  lemma InsertExact(ms: seq<Member>, m: Member, x: Member)
    requires Distinct(ms)
    ensures x in Insert(ms, m) <==> x == m || (x in ms && x.key != m.key)
  {
    IndexOfExact(ms, m.key);
    var i, r := IndexOf(ms, m.key), Insert(ms, m);
    if i < |ms| { assert r[i] == m; } else { assert r[|ms|] == m; }
    if x in ms && x.key != m.key {
      var j :| 0 <= j < |ms| && ms[j] == x;
      assert r[j] == x;
    }
  }

  /** What is in the map in the end is exactly the last member of every name. */
  lemma {:induction false} InsertAllExact(ms: seq<Member>, x: Member)
    ensures x in InsertAll(ms) <==> IsLast(ms, x)
  {
    if ms != [] {
      var n := |ms| - 1;
      InsertAllDistinct(ms[..n]);
      InsertAllExact(ms[..n], x);
      InsertExact(InsertAll(ms[..n]), ms[n], x);
      LastOfMore(ms, x);
    }
  }

  lemma LastOfMore(ms: seq<Member>, x: Member)
    requires ms != []
    ensures var n := |ms| - 1; IsLast(ms, x) <==> x == ms[n] || (IsLast(ms[..n], x) && x.key != ms[n].key)
  {
    var n := |ms| - 1;
    assert LastAt(ms, n);
    if IsLast(ms[..n], x) && x.key != ms[n].key { LastStays(ms, n, x); }
    if IsLast(ms, x) && x != ms[n] { LastWas(ms, n, x); }
  }

  lemma LastStays(ms: seq<Member>, n: nat, x: Member)
    requires n == |ms| - 1 && IsLast(ms[..n], x) && x.key != ms[n].key
    ensures IsLast(ms, x)
  {
    var i: nat :| LastAt(ms[..n], i) && ms[..n][i] == x;
    LastOfBoth(ms, n, i);
  }

  lemma LastWas(ms: seq<Member>, n: nat, x: Member)
    requires n == |ms| - 1 && IsLast(ms, x) && x != ms[n]
    ensures IsLast(ms[..n], x) && x.key != ms[n].key
  {
    var i: nat :| LastAt(ms, i) && ms[i] == x;
    LastOfBoth(ms, n, i);
  }

  lemma LastOfBoth(ms: seq<Member>, n: nat, i: nat)
    requires n == |ms| - 1 && i < n
    ensures ms[..n][i] == ms[i] && (LastAt(ms, i) <==> LastAt(ms[..n], i) && ms[n].key != ms[i].key)
  {
    if LastAt(ms[..n], i) && ms[n].key != ms[i].key {
      forall j | i < j < |ms| ensures ms[j].key != ms[i].key { if j < n { assert ms[..n][j] == ms[j]; } }
    }
  }

  /** No name is lost and none is made up. */
  lemma KeysKept(ms: seq<Member>, key: seq<byte>)
    ensures HasKey(InsertAll(ms), key) <==> HasKey(ms, key)
  {
    if HasKey(ms, key) {
      var i := LastOf(ms, key);
      InsertAllExact(ms, ms[i]);
      assert LastAt(ms, i);
    }
    if HasKey(InsertAll(ms), key) {
      var i :| 0 <= i < |InsertAll(ms)| && InsertAll(ms)[i].key == key;
      InsertAllExact(ms, InsertAll(ms)[i]);
    }
  }

  lemma {:induction false} LastOf(ms: seq<Member>, key: seq<byte>) returns (i: nat)
    requires HasKey(ms, key)
    ensures LastAt(ms, i) && ms[i].key == key
  {
    i := |ms| - 1;
    if ms[i].key != key {
      var rest := ms[..i];
      var j :| 0 <= j < |ms| && ms[j].key == key;
      assert rest[j].key == key;
      i := LastOf(rest, key);
      assert forall k :: 0 <= k < |rest| ==> rest[k] == ms[k];
    }
  }

  /** `w` is `v` in which every object, at every depth, has exactly the last member of each of its names. */
  ghost predicate Reduced(v: Value, w: Value) {
    match v
    case Array(es) => w.Array? && |w.elems| == |es| && forall i :: 0 <= i < |es| ==> Reduced(es[i], w.elems[i])
    case Object(ms) =>
      && w.Object? && Distinct(w.members) && (forall i :: 0 <= i < |ms| ==> HasKey(w.members, ms[i].key))
      && forall j :: 0 <= j < |w.members| ==>
           exists i: nat :: i < |ms| && LastAt(ms, i) && ms[i].key == w.members[j].key && Reduced(ms[i].value, w.members[j].value)
    case _ => w == v
  }

  /** That is what serde makes of a value. */
  lemma {:induction false} LastWinsReduces(v: Value)
    ensures Reduced(v, LastWins(v))
  {
    match v
    case Array(es) => forall i | 0 <= i < |es| ensures Reduced(es[i], LastWins(es[i])) { LastWinsReduces(es[i]); }
    case Object(ms) =>
      var won := MembersLastWin(ms);
      var w := InsertAll(won);
      forall i | 0 <= i < |ms| ensures Reduced(ms[i].value, LastWins(ms[i].value)) { LastWinsReduces(ms[i].value); }
      InsertAllDistinct(won);
      forall i | 0 <= i < |ms| ensures HasKey(w, ms[i].key) {
        assert won[i].key == ms[i].key;
        KeysKept(won, ms[i].key);
      }
      forall j | 0 <= j < |w|
        ensures exists i: nat :: i < |ms| && LastAt(ms, i) && ms[i].key == w[j].key && Reduced(ms[i].value, w[j].value)
      {
        InsertAllExact(won, w[j]);
        var i: nat :| LastAt(won, i) && won[i] == w[j];
        assert forall k :: 0 <= k < |ms| ==> won[k].key == ms[k].key;
        assert LastAt(ms, i);
      }
    case _ =>
  }

  /** Of two numbers under one name the second stays. */
  lemma TwoInserted(one: Member, two: Member)
    requires one.key == two.key && one.value.I64? && two.value.I64?
    ensures LastWins(Object([one, two])) == Object([two])
  {
    var ms := [one, two];
    assert MembersLastWin(ms) == ms;
    assert ms[..1] == [one] && ms[..1][..0] == [];
    assert InsertAll([one]) == [one];
  }

  // ----- what a traversal has done

  /** The value at token `i` has been read, or refused with the cursor still inside it. */
  ghost predicate Built(d: Doc, t: Tree, i: nat, before: seq<byte>, after: seq<byte>, idx: nat, r: Result<Value>) {
    match d.Interp(t, i)
    case None => r.Err? && idx < After(t, i)
    case Some(v) => r == Ok(LastWins(v)) && idx + 1 == After(t, i) && Done(d, before, after, i, idx)
  }

  /** `n` elements of the array at token `b` have been handed out; the cursor is to be taken as standing at `idx`. */
  ghost predicate SeqState(d: Doc, t: Tree, b: nat, n: nat, res: seq<Value>, idx: nat, before: seq<byte>, buf: seq<byte>)
    requires t.ArrayTree?
  {
    && 1 <= b && n <= |t.elems| && Derives(d, t, b) && Done(d, before, buf, b, idx)
    && (if t.elems == [] then res == [] && idx == b else InArray(d, t.elems, b, After(t, b), n, res, idx))
  }

  lemma SeqBegins(d: Doc, t: Tree, b: nat, before: seq<byte>)
    requires d.Ok() && 1 <= b && t.ArrayTree? && Derives(d, t, b) && Clean(d, before, b)
    ensures SeqState(d, t, b, 0, [], b, before, before)
  {
    DoneNothing(d, before, b);
    if t.elems != [] { ArrayBegins(d, t.elems, b); }
  }

  lemma SeqNext(d: Doc, t: Tree, b: nat, n: nat, res: seq<Value>, idx: nat, before: seq<byte>, buf: seq<byte>)
    requires d.Ok() && t.ArrayTree? && n < |t.elems| && SeqState(d, t, b, n, res, idx, before, buf)
    ensures Derives(d, t.elems[n], idx + 1) && idx + 1 < After(t.elems[n], idx + 1) < After(t, b) <= |d.k|
    ensures Clean(d, buf, idx + 1)
  {
    ArrayNext(d, t.elems, b, After(t, b), n, res, idx);
    TreeEnds(d, b);
  }

  lemma SeqRefused(d: Doc, t: Tree, b: nat, n: nat, res: seq<Value>, idx: nat, before: seq<byte>, buf: seq<byte>)
    requires d.Ok() && t.ArrayTree? && n < |t.elems| && SeqState(d, t, b, n, res, idx, before, buf)
    requires d.Interp(t.elems[n], idx + 1).None?
    ensures d.Interp(t, b).None?
  {
    ArrayRefused(d, t.elems, b, After(t, b), n, res, idx);
  }

  lemma AllLastWinNext(res: seq<Value>, w: Value)
    ensures AllLastWin(res + [w]) == AllLastWin(res) + [LastWins(w)]
  {}

  lemma SeqGoesOn(d: Doc, t: Tree, b: nat, n: nat, res: seq<Value>, idx: nat,
                  before: seq<byte>, was: seq<byte>, after: seq<byte>, idx2: nat, r: Result<Value>)
    returns (raw: seq<Value>)
    requires d.Ok() && t.ArrayTree? && n < |t.elems| && SeqState(d, t, b, n, res, idx, before, was)
    requires r.Ok? && Built(d, t.elems[n], idx + 1, was, after, idx2, r)
    ensures SeqState(d, t, b, n + 1, raw, idx2 + 1, before, after) && AllLastWin(raw) == AllLastWin(res) + [r.value]
  {
    var w := d.Interp(t.elems[n], idx + 1).value;
    raw := res + [w];
    ArrayPushed(d, t.elems, b, After(t, b), n, res, idx, w, idx2 + 1);
    DonePast(d, before, was, after, b, idx, idx2);
    AllLastWinNext(res, w);
  }

  /** After the last element the cursor is one token before the closing bracket, or taken as standing on it. */
  lemma SeqEnds(d: Doc, t: Tree, b: nat, res: seq<Value>, before: seq<byte>, buf: seq<byte>, idx: nat)
    requires d.Ok() && t.ArrayTree? && SeqState(d, t, b, |t.elems|, res, idx, before, buf)
    ensures var last := if t.elems == [] then idx + 1 else idx;
            last < |d.k| && Built(d, t, b, before, buf, last, Ok(Array(AllLastWin(res))))
  {
    TreeEnds(d, b);
    if t.elems == [] {
      DoneSkip(d, before, buf, b, b);
    } else {
      ArrayEnds(d, t.elems, b, res, idx);
    }
    assert LastWins(Array(res)) == Array(AllLastWin(res));
  }

  /** `n` members of the object at token `b` have been handed out, and the cursor stands at `idx`. */
  ghost predicate MapState(d: Doc, t: Tree, b: nat, n: nat, res: seq<Member>, idx: nat, before: seq<byte>, buf: seq<byte>)
    requires t.ObjectTree?
  {
    && 1 <= b && n <= |t.members| && Derives(d, t, b) && Done(d, before, buf, b, idx)
    && (if t.members == [] then res == [] && idx == b else InMap(d, t.members, b, After(t, b), n, res, idx))
  }

  lemma MapStarts(d: Doc, t: Tree, b: nat, before: seq<byte>)
    requires d.Ok() && 1 <= b && t.ObjectTree? && Derives(d, t, b) && Clean(d, before, b)
    ensures MapState(d, t, b, 0, [], b, before, before)
  {
    DoneNothing(d, before, b);
    if t.members != [] { MapBegins(d, t.members, b); }
  }

  lemma MapReadsOn(d: Doc, t: Tree, b: nat, n: nat, res: seq<Member>, idx: nat, before: seq<byte>, buf: seq<byte>)
    requires d.Ok() && t.ObjectTree? && n < |t.members| && MapState(d, t, b, n, res, idx, before, buf)
    ensures idx + 3 < After(t.members[n], idx + 3) < After(t, b) <= |d.k| && d.k[idx + 1] == Str
  {
    MapNext(d, t.members, b, After(t, b), n, res, idx);
    TreeEnds(d, b);
  }

  lemma NameRefused(d: Doc, t: Tree, b: nat, n: nat, res: seq<Member>, idx: nat, before: seq<byte>, buf: seq<byte>)
    requires d.Ok() && t.ObjectTree? && n < |t.members| && MapState(d, t, b, n, res, idx, before, buf)
    requires StringOf(d.s, d.Pos(idx + 1)).None?
    ensures d.Interp(t, b).None?
  {
    MapRefused(d, t.members, b, After(t, b), n, res, idx);
  }

  /** A name has been handed out, and its value is next. */
  ghost predicate KeyState(d: Doc, t: Tree, b: nat, n: nat, res: seq<Member>, idx: nat, key: seq<byte>,
                           before: seq<byte>, buf: seq<byte>)
    requires t.ObjectTree?
  {
    && 1 <= b && n < |t.members| && Derives(d, t, b) && InMap(d, t.members, b, After(t, b), n, res, idx)
    && StringOf(d.s, d.Pos(idx + 1)) == Some(key) && Done(d, before, buf, b, idx + 1)
  }

  lemma KeyHandedOut(d: Doc, t: Tree, b: nat, n: nat, res: seq<Member>, idx: nat, key: seq<byte>,
                     before: seq<byte>, was: seq<byte>, after: seq<byte>)
    requires t.ObjectTree? && n < |t.members| && MapState(d, t, b, n, res, idx, before, was)
    requires StringOf(d.s, d.Pos(idx + 1)) == Some(key) && Done(d, before, after, b, idx + 1)
    ensures KeyState(d, t, b, n, res, idx, key, before, after)
  {}

  lemma ValueNext(d: Doc, t: Tree, b: nat, n: nat, res: seq<Member>, idx: nat, key: seq<byte>, before: seq<byte>, buf: seq<byte>)
    requires d.Ok() && t.ObjectTree? && KeyState(d, t, b, n, res, idx, key, before, buf)
    ensures idx + 3 < After(t.members[n], idx + 3) < After(t, b) <= |d.k| && Derives(d, t.members[n], idx + 3)
  {
    MapNext(d, t.members, b, After(t, b), n, res, idx);
    TreeEnds(d, b);
  }

  lemma ColonDone(d: Doc, t: Tree, b: nat, n: nat, res: seq<Member>, idx: nat, key: seq<byte>, before: seq<byte>, buf: seq<byte>)
    requires d.Ok() && t.ObjectTree? && KeyState(d, t, b, n, res, idx, key, before, buf)
    ensures Done(d, before, buf, b, idx + 2)
  {
    DoneSkip(d, before, buf, b, idx + 1);
  }

  /** The value behind the colon can be read. */
  lemma ValueReady(d: Doc, t: Tree, b: nat, n: nat, res: seq<Member>, idx: nat, key: seq<byte>, before: seq<byte>, buf: seq<byte>)
    requires d.Ok() && t.ObjectTree? && KeyState(d, t, b, n, res, idx, key, before, buf)
    ensures Derives(d, t.members[n], idx + 3) && Clean(d, buf, idx + 3)
  {
    ValueNext(d, t, b, n, res, idx, key, before, buf);
    ColonDone(d, t, b, n, res, idx, key, before, buf);
  }

  lemma ValueRefused(d: Doc, t: Tree, b: nat, n: nat, res: seq<Member>, idx: nat, key: seq<byte>, before: seq<byte>, buf: seq<byte>)
    requires d.Ok() && t.ObjectTree? && KeyState(d, t, b, n, res, idx, key, before, buf)
    requires d.Interp(t.members[n], idx + 3).None?
    ensures d.Interp(t, b).None? && After(t.members[n], idx + 3) < After(t, b) <= |d.k|
  {
    ValueNext(d, t, b, n, res, idx, key, before, buf);
    MapRefused(d, t.members, b, After(t, b), n, res, idx);
  }

  /** The map built from the members handed out so far. */
  function Gathered(res: seq<Member>): seq<Member> {
    InsertAll(MembersLastWin(res))
  }

  lemma MapGoesOn(d: Doc, t: Tree, b: nat, n: nat, res: seq<Member>, idx: nat, key: seq<byte>,
                  before: seq<byte>, was: seq<byte>, after: seq<byte>, idx2: nat, r: Result<Value>)
    returns (raw: seq<Member>)
    requires d.Ok() && t.ObjectTree? && KeyState(d, t, b, n, res, idx, key, before, was)
    requires r.Ok? && Built(d, t.members[n], idx + 3, was, after, idx2, r)
    ensures MapState(d, t, b, n + 1, raw, idx2 + 1, before, after)
    ensures Gathered(raw) == Insert(Gathered(res), Member(key, r.value)) && idx2 + 1 < |d.k|
  {
    var m := Member(key, d.Interp(t.members[n], idx + 3).value);
    raw := res + [m];
    InsertNext(res, m);
    MapLonger(d, t, b, n, res, idx, key, before, was, after, idx2, m);
  }

  lemma MapLonger(d: Doc, t: Tree, b: nat, n: nat, res: seq<Member>, idx: nat, key: seq<byte>,
                  before: seq<byte>, was: seq<byte>, after: seq<byte>, idx2: nat, m: Member)
    requires d.Ok() && t.ObjectTree? && KeyState(d, t, b, n, res, idx, key, before, was)
    requires d.Interp(t.members[n], idx + 3) == Some(m.value) && m.key == key
    requires idx2 + 1 == After(t.members[n], idx + 3) && Done(d, was, after, idx + 3, idx2)
    ensures MapState(d, t, b, n + 1, res + [m], idx2 + 1, before, after) && idx2 + 1 < |d.k|
  {
    ValueNext(d, t, b, n, res, idx, key, before, was);
    ColonDone(d, t, b, n, res, idx, key, before, was);
    MapPushed(d, t.members, b, After(t, b), n, res, idx, m, idx2 + 1);
    DonePast(d, before, was, after, b, idx + 2, idx2);
  }

  lemma MapFinishes(d: Doc, t: Tree, b: nat, res: seq<Member>, before: seq<byte>, buf: seq<byte>, idx: nat)
    requires d.Ok() && t.ObjectTree? && MapState(d, t, b, |t.members|, res, idx, before, buf)
    ensures var last := if t.members == [] then idx + 1 else idx;
            last < |d.k| && Built(d, t, b, before, buf, last, Ok(Object(Gathered(res))))
  {
    TreeEnds(d, b);
    if t.members == [] {
      DoneSkip(d, before, buf, b, b);
    } else {
      MapEnds(d, t.members, b, res, idx);
    }
    assert LastWins(Object(res)) == Object(Gathered(res));
  }

  // ----- the accesses

  /** Hands out the elements or members of one bracket, counting down. */
  class CommaSeparated {
    const de: Deserializer
    var first: bool
    var len: nat

    constructor (de: Deserializer)
      requires de.idx < |de.counts|
      ensures this.de == de && first && len == de.counts[de.idx]
    {
      this.de, first, len := de, true, de.CountElements();
    }

    /** Where the cursor is to be taken as standing: the comma is skipped only before the next element. */
    function SeqIdx(): nat
      reads this`first, de`idx
    {
      if first then de.idx else de.idx + 1
    }

    /** Skips the comma, except before the first element. */
    method ToElement()
      requires len > 0 && (!first ==> de.idx + 1 < |de.structuralIndexes|)
      modifies this, de`idx, de`iidx
      ensures de.idx == old(SeqIdx()) && !first && len == old(len) - 1
    {
      if !first {
        de.Skip();
      } else {
        first := false;
      }
      len := len - 1;
    }

    /** The next element; after the last one, none, and the cursor goes on to the closing bracket. */
    method NextElement(ghost d: Doc, ghost t: Tree, ghost b: nat, ghost n: nat, ghost res: seq<Value>,
                       ghost before: seq<byte>, ghost was: seq<byte>)
      returns (r: Result<Option<Value>>, ghost raw: seq<Value>, ghost after: seq<byte>)
      requires t.ArrayTree? && Walks(d, de, was) && n <= |t.elems| && len == |t.elems| - n && first == (n == 0)
      requires SeqState(d, t, b, n, res, SeqIdx(), before, was)
      modifies this, de, de.input, de.strings
      ensures Walks(d, de, after)
      ensures r.Err? ==> d.Interp(t, b).None? && de.idx < After(t, b)
      ensures r == Ok(None) ==> raw == res && Built(d, t, b, before, after, de.idx, Ok(Array(AllLastWin(res))))
      ensures r.Ok? && r.value.Some? ==>
        && n < |t.elems| && len == |t.elems| - (n + 1) && !first
        && SeqState(d, t, b, n + 1, raw, SeqIdx(), before, after) && AllLastWin(raw) == AllLastWin(res) + [r.value.value]
      decreases t, 1
    {
      if len == 0 {
        raw, after := res, was;
        SeqEnds(d, t, b, res, before, was, SeqIdx());
        de.Skip();
        return Ok(None), raw, after;
      }
      ghost var idx := SeqIdx();
      SeqNext(d, t, b, n, res, idx, before, was);
      ToElement();
      var e;
      e, raw, after := ElementHere(d, t, b, n, res, idx, before, was);
      r := if e.Ok? then Ok(Some(e.value)) else Err(e.error);
    }

    /** The element behind the cursor. */
    method ElementHere(ghost d: Doc, ghost t: Tree, ghost b: nat, ghost n: nat, ghost res: seq<Value>, ghost idx: nat,
                       ghost before: seq<byte>, ghost was: seq<byte>)
      returns (r: Result<Value>, ghost raw: seq<Value>, ghost after: seq<byte>)
      requires t.ArrayTree? && Walks(d, de, was) && n < |t.elems| && de.idx == idx
      requires SeqState(d, t, b, n, res, idx, before, was)
      modifies de, de.input, de.strings
      ensures Walks(d, de, after)
      ensures r.Err? ==> d.Interp(t, b).None? && de.idx < After(t, b)
      ensures r.Ok? ==>
        SeqState(d, t, b, n + 1, raw, de.idx + 1, before, after) && AllLastWin(raw) == AllLastWin(res) + [r.value]
      decreases t, 0
    {
      raw := res;
      SeqNext(d, t, b, n, res, idx, before, was);
      r, after := DeserializeAny(d, t.elems[n], de, was);
      if r.Err? {
        SeqRefused(d, t, b, n, res, idx, before, was);
        return;
      }
      raw := SeqGoesOn(d, t, b, n, res, idx, before, was, after, de.idx, r);
    }

    /** The next name; after the last member, none, with the cursor on the closing brace. */
    method NextKey(ghost d: Doc, ghost t: Tree, ghost b: nat, ghost n: nat, ghost res: seq<Member>,
                   ghost before: seq<byte>, ghost was: seq<byte>)
      returns (r: Result<Option<seq<byte>>>, ghost after: seq<byte>)
      requires t.ObjectTree? && Walks(d, de, was) && n <= |t.members| && len == |t.members| - n && first == (n == 0)
      requires MapState(d, t, b, n, res, de.idx, before, was)
      modifies this, de, de.input, de.strings
      ensures Walks(d, de, after)
      ensures r.Err? ==> d.Interp(t, b).None? && de.idx < After(t, b)
      ensures r == Ok(None) ==> Built(d, t, b, before, after, de.idx, Ok(Object(Gathered(res))))
      ensures r.Ok? && r.value.Some? ==>
        && len == |t.members| - n - 1 && !first && de.idx == old(de.idx) + 1
        && KeyState(d, t, b, n, res, old(de.idx), r.value.value, before, after)
    {
      after := was;
      if len == 0 {
        MapFinishes(d, t, b, res, before, was, de.idx);
        if first {
          de.Skip();
        }
        return Ok(None), after;
      }
      len := len - 1;
      first := false;
      var key;
      key, after := KeyHere(d, t, b, n, res, before, was);
      r := if key.Ok? then Ok(Some(key.value)) else Err(key.error);
    }

    /** The name behind the cursor. */
    method KeyHere(ghost d: Doc, ghost t: Tree, ghost b: nat, ghost n: nat, ghost res: seq<Member>,
                   ghost before: seq<byte>, ghost was: seq<byte>)
      returns (r: Result<seq<byte>>, ghost after: seq<byte>)
      requires t.ObjectTree? && Walks(d, de, was) && n < |t.members|
      requires MapState(d, t, b, n, res, de.idx, before, was)
      modifies de, de.input, de.strings
      ensures Walks(d, de, after)
      ensures r.Err? ==> d.Interp(t, b).None? && de.idx < After(t, b)
      ensures r.Ok? ==> de.idx == old(de.idx) + 1 && KeyState(d, t, b, n, res, old(de.idx), r.value, before, after)
    {
      ghost var idx := de.idx;
      MapReadsOn(d, t, b, n, res, idx, before, was);
      r, after := DeserializeString(d, de, b, before, was);
      if r.Ok? {
        KeyHandedOut(d, t, b, n, res, idx, r.value, before, was, after);
      } else {
        NameRefused(d, t, b, n, res, idx, before, was);
      }
    }

    /** The value that belongs to the name; the cursor goes on behind it, also when the value is refused. */
    method NextValue(ghost d: Doc, ghost t: Tree, ghost b: nat, ghost n: nat, ghost res: seq<Member>, ghost key: seq<byte>,
                     ghost before: seq<byte>, ghost was: seq<byte>)
      returns (r: Result<Value>, ghost raw: seq<Member>, ghost after: seq<byte>)
      requires t.ObjectTree? && Walks(d, de, was) && de.idx >= 1
      requires KeyState(d, t, b, n, res, de.idx - 1, key, before, was)
      modifies de, de.input, de.strings
      ensures Walks(d, de, after)
      ensures r.Err? ==> d.Interp(t, b).None? && de.idx < After(t, b)
      ensures r.Ok? ==>
        MapState(d, t, b, n + 1, raw, de.idx, before, after) && Gathered(raw) == Insert(Gathered(res), Member(key, r.value))
      decreases t, 1
    {
      ghost var idx := de.idx - 1;
      ValueNext(d, t, b, n, res, idx, key, before, was);
      de.Skip();
      r, raw, after := ValueHere(d, t, b, n, res, idx, key, before, was);
      de.Skip();
    }

    /** The value behind the colon the cursor is on. */
    method ValueHere(ghost d: Doc, ghost t: Tree, ghost b: nat, ghost n: nat, ghost res: seq<Member>, ghost idx: nat,
                     ghost key: seq<byte>, ghost before: seq<byte>, ghost was: seq<byte>)
      returns (r: Result<Value>, ghost raw: seq<Member>, ghost after: seq<byte>)
      requires t.ObjectTree? && Walks(d, de, was) && de.idx == idx + 2
      requires KeyState(d, t, b, n, res, idx, key, before, was)
      modifies de, de.input, de.strings
      ensures Walks(d, de, after)
      ensures r.Err? ==> d.Interp(t, b).None? && de.idx + 1 < After(t, b) <= |d.k|
      ensures r.Ok? ==> MapState(d, t, b, n + 1, raw, de.idx + 1, before, after) && de.idx + 1 < |d.k|
      ensures r.Ok? ==> Gathered(raw) == Insert(Gathered(res), Member(key, r.value))
      decreases t, 0
    {
      raw := res;
      ValueReady(d, t, b, n, res, idx, key, before, was);
      r, after := DeserializeAny(d, t.members[n], de, was);
      if r.Err? {
        ValueRefused(d, t, b, n, res, idx, key, before, was);
        return;
      }
      raw := MapGoesOn(d, t, b, n, res, idx, key, before, was, after, de.idx, r);
    }
  }

  lemma QuoteAt(d: Doc, buf: seq<byte>, i: nat)
    requires d.Ok() && 1 <= i < |d.indexes| && d.k[i] == Str && Clean(d, buf, i)
    ensures d.Pos(i) < |buf| && buf[d.Pos(i)] == QUOTE
  {
    TokenIsOk(d, i, |d.indexes|);
  }

  /** A string; that a quote stands there has been seen to by stage 2. */
  method DeserializeString(ghost d: Doc, de: Deserializer, ghost b: nat, ghost before: seq<byte>, ghost was: seq<byte>)
    returns (r: Result<seq<byte>>, ghost after: seq<byte>)
    requires Walks(d, de, was) && 1 <= b && de.idx + 1 < |d.indexes|
    requires d.k[de.idx + 1] == Str && Done(d, before, was, b, de.idx)
    modifies de, de.input, de.strings
    ensures Walks(d, de, after) && de.idx == old(de.idx) + 1
    ensures match StringOf(d.s, d.Pos(de.idx))
            case None => r.Err?
            case Some(key) => r == Ok(key) && Done(d, before, after, b, de.idx)
  {
    after := was;
    QuoteAt(d, was, de.idx + 1);
    var c := de.NextChecked();
    if c != Ok(QUOTE) {
      assert false;
    }
    var l;
    l, after := ReadString(d, de, was);
    if l.Err? {
      return Err(l.error), after;
    }
    DoneMore(d, before, was, after, b, de.idx - 1, de.idx);
    return Ok(de.input[l.value.start..l.value.start + l.value.len]), after;
  }

  /** Builds a list from a sequence access. */
  method VisitSeq(ghost d: Doc, ghost t: Tree, cs: CommaSeparated, ghost before: seq<byte>)
    returns (r: Result<Value>, ghost after: seq<byte>)
    requires t.ArrayTree? && Walks(d, cs.de, before) && 1 <= cs.de.idx && Derives(d, t, cs.de.idx) && Clean(d, before, cs.de.idx)
    requires cs.first && cs.len == |t.elems|
    modifies cs, cs.de, cs.de.input, cs.de.strings
    ensures Walks(d, cs.de, after) && Built(d, t, old(cs.de.idx), before, after, cs.de.idx, r)
    decreases t, 2
  {
    ghost var b, n: nat, raw: seq<Value> := cs.de.idx, 0, [];
    var v: seq<Value> := [];
    after := before;
    SeqBegins(d, t, b, before);
    while true
      invariant Walks(d, cs.de, after) && n <= |t.elems| && cs.len == |t.elems| - n && cs.first == (n == 0)
      invariant SeqState(d, t, b, n, raw, cs.SeqIdx(), before, after) && v == AllLastWin(raw)
      decreases |t.elems| - n
    {
      var e;
      e, raw, after := cs.NextElement(d, t, b, n, raw, before, after);
      if e.Err? {
        return Err(e.error), after;
      }
      if e.value.None? {
        return Ok(Array(v)), after;
      }
      v := v + [e.value.value];
      n := n + 1;
    }
  }

  /** Builds a map from a map access: a later member replaces an earlier one of the same name. */
  method VisitMap(ghost d: Doc, ghost t: Tree, cs: CommaSeparated, ghost before: seq<byte>)
    returns (r: Result<Value>, ghost after: seq<byte>)
    requires t.ObjectTree? && Walks(d, cs.de, before) && 1 <= cs.de.idx && Derives(d, t, cs.de.idx) && Clean(d, before, cs.de.idx)
    requires cs.first && cs.len == |t.members|
    modifies cs, cs.de, cs.de.input, cs.de.strings
    ensures Walks(d, cs.de, after) && Built(d, t, old(cs.de.idx), before, after, cs.de.idx, r)
    decreases t, 2
  {
    ghost var b, n: nat, raw: seq<Member> := cs.de.idx, 0, [];
    var m: seq<Member> := [];
    after := before;
    MapStarts(d, t, b, before);
    while true
      invariant Walks(d, cs.de, after) && n <= |t.members| && cs.len == |t.members| - n && cs.first == (n == 0)
      invariant MapState(d, t, b, n, raw, cs.de.idx, before, after) && m == Gathered(raw)
      decreases |t.members| - n
    {
      var k;
      ghost var idx := cs.de.idx;
      k, after := cs.NextKey(d, t, b, n, raw, before, after);
      if k.Err? {
        return Err(k.error), after;
      }
      if k.value.None? {
        return Ok(Object(m)), after;
      }
      var key := k.value.value;
      assert cs.de.idx - 1 == idx;
      var v;
      v, raw, after := cs.NextValue(d, t, b, n, raw, key, before, after);
      if v.Err? {
        return Err(v.error), after;
      }
      m := Insert(m, Member(key, v.value));
      n := n + 1;
    }
  }

  /** Reads the value behind the cursor, whatever it is. */
  method DeserializeAny(ghost d: Doc, ghost t: Tree, de: Deserializer, ghost before: seq<byte>)
    returns (r: Result<Value>, ghost after: seq<byte>)
    requires Walks(d, de, before)
    requires Derives(d, t, de.idx + 1) && Clean(d, before, de.idx + 1)
    modifies de, de.input, de.strings
    ensures Walks(d, de, after) && Built(d, t, old(de.idx) + 1, before, after, de.idx, r)
    decreases t, 3
  {
    ghost var i := de.idx + 1;
    FirstByte(d, t, i, before);
    DoneNothing(d, before, i);
    TreeEnds(d, i);
    CountIs(d, t, i, de.counts);
    var next := de.NextChecked();
    after := before;
    if next.Err? {
      assert false;
    }
    var c := next.value;
    if c == QUOTE {
      var l;
      l, after := ReadString(d, de, before);
      r := if l.Ok? then Ok(String(de.input[l.value.start..l.value.start + l.value.len])) else Err(l.error);
    } else if c == LOWER_N {
      r := Ok(Null);
    } else if c == LOWER_T {
      r := Ok(Bool(true));
    } else if c == LOWER_F {
      r := Ok(Bool(false));
    } else if c == MINUS || IsDigit(c) {
      var n := ReadNumber(d, de, c == MINUS, before);
      r := if n.Ok? then Ok(FromNumber(n.value)) else Err(n.error);
      if r.Ok? { ScalarWins(r.value); }
    } else if c == LBRACKET {
      var cs := new CommaSeparated(de);
      r, after := VisitSeq(d, t, cs, before);
    } else if c == LBRACE {
      var cs := new CommaSeparated(de);
      r, after := VisitMap(d, t, cs, before);
    } else {
      r := Err(UnexpectedCharacter);
      assert false;
    }
  }

  lemma ScalarWins(v: Value)
    requires v.I64? || v.F64?
    ensures LastWins(v) == v
  {}

  /** Reads a document through the serde interface: the last of the members of one name wins. */
  method FromSlice(input: array<byte>, swar: bool) returns (r: Result<Value>)
    requires Followed(input[..])
    modifies input
    ensures match ValueOf(old(input[..]))
            case None => r.Err?
            case Some(v) => r == Ok(LastWins(v)) && Reduced(v, r.value) && (UniqueKeys(v) <==> r == Ok(v))
  {
    var de;
    ghost var d, t, after;
    ghost var s := input[..];
    de, d, t := Start(input, swar);
    if de.Err? {
      return Err(de.error);
    }
    r, after := DeserializeAny(d, t, de.value, s);
    if ValueOf(s).Some? {
      LastWinsExact(ValueOf(s).value);
      LastWinsReduces(ValueOf(s).value);
    }
  }
}
