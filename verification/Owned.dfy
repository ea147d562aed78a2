/** The builder of owned values: it trusts the counts of stage 2 and looks at no punctuation. */
module Owned {
  import opened Bytes
  import opened Grammar
  import opened Values
  import opened Walk
  import opened Deserializing
  import opened Documents

  /** The value at token `i` has been built, and the cursor stands on its last token. */
  ghost predicate Built(d: Doc, t: Tree, i: nat, before: seq<byte>, after: seq<byte>, idx: nat, r: Result<Value>) {
    match d.Interp(t, i)
    case None => r.Err?
    case Some(v) =>
      r == Ok(v) && idx + 1 == After(t, i) && Done(d, before, after, i, idx)
  }

  lemma ElementDone(d: Doc, es: seq<Tree>, n: nat, b: nat, end: nat, res: seq<Value>, idx: nat,
                    before: seq<byte>, was: seq<byte>, after: seq<byte>, idx2: nat, v: Value)
    requires d.Ok() && 1 <= b && n < |es| && InArray(d, es, b, end, n, res, idx) && Done(d, before, was, b, idx)
    requires Built(d, es[n], idx + 1, was, after, idx2, Ok(v))
    ensures idx2 + 1 < |d.k| && InArray(d, es, b, end, n + 1, res + [v], idx2 + 1)
    ensures Done(d, before, after, b, idx2 + 1)
  {
    ArrayNext(d, es, b, end, n, res, idx);
    ArrayPushed(d, es, b, end, n, res, idx, v, idx2 + 1);
    DonePast(d, before, was, after, b, idx, idx2);
  }

  lemma MemberDone(d: Doc, ms: seq<Tree>, n: nat, b: nat, end: nat, res: seq<Member>, idx: nat,
                   before: seq<byte>, was: seq<byte>, after: seq<byte>, idx2: nat, m: Member)
    requires d.Ok() && 1 <= b && n < |ms| && InMap(d, ms, b, end, n, res, idx) && Done(d, before, was, b, idx + 2)
    requires StringOf(d.s, d.Pos(idx + 1)) == Some(m.key)
    requires Built(d, ms[n], idx + 3, was, after, idx2, Ok(m.value))
    ensures idx2 + 1 < |d.k| && InMap(d, ms, b, end, n + 1, res + [m], idx2 + 1)
    ensures Done(d, before, after, b, idx2 + 1)
  {
    MapNext(d, ms, b, end, n, res, idx);
    MapPushed(d, ms, b, end, n, res, idx, m, idx2 + 1);
    DonePast(d, before, was, after, b, idx + 2, idx2);
  }

  class OwnedDeserializer {
    const de: Deserializer

    constructor (de: Deserializer)
      ensures this.de == de
    {
      this.de := de;
    }

    /** The value behind the cursor. */
    method ParseValue(ghost d: Doc, ghost t: Tree, ghost before: seq<byte>) returns (r: Result<Value>, ghost after: seq<byte>)
      requires Walks(d, de, before)
      requires Derives(d, t, de.idx + 1) && Clean(d, before, de.idx + 1)
      modifies de, de.input, de.strings
      ensures Walks(d, de, after) && Built(d, t, old(de.idx) + 1, before, after, de.idx, r)
      decreases t, 1
    {
      ghost var i := de.idx + 1;
      FirstByte(d, t, i, before);
      DoneNothing(d, before, i);
      var c := de.Next();
      after := before;
      if c == QUOTE {
        var l;
        l, after := ReadString(d, de, before);
        r := if l.Ok? then Ok(String(de.input[l.value.start..l.value.start + l.value.len])) else Err(l.error);
      } else if c == LOWER_N {
        r := Ok(Null);
      } else if c == LOWER_T {
        r := Ok(Bool(true));
      } else if c == LOWER_F {
        r := Ok(Bool(false));
      } else if c == MINUS || IsDigit(c) {
        var n := ReadNumber(d, de, c == MINUS, before);
        r := if n.Ok? then Ok(FromNumber(n.value)) else Err(n.error);
      } else if c == LBRACKET {
        r, after := ParseArray(d, t, before);
      } else if c == LBRACE {
        r, after := ParseMap(d, t, before);
      } else {
        r := Err(UnexpectedCharacter);
        assert false;
      }
    }

    /** One element: the cursor goes from the token before it to the token behind it. */
    method ParseElement(ghost d: Doc, ghost es: seq<Tree>, ghost n: nat, ghost b: nat, ghost end: nat, ghost res: seq<Value>,
                        ghost before: seq<byte>, ghost was: seq<byte>)
      returns (r: Result<Value>, ghost after: seq<byte>)
      requires Walks(d, de, was)
      requires 1 <= b && n < |es| && InArray(d, es, b, end, n, res, de.idx) && Done(d, before, was, b, de.idx)
      modifies de, de.input, de.strings
      ensures Walks(d, de, after)
      ensures r.Err? ==> d.Elems(es, b + 1).None?
      ensures r.Ok? ==> InArray(d, es, b, end, n + 1, res + [r.value], de.idx) && Done(d, before, after, b, de.idx)
      decreases es, 0
    {
      ghost var idx := de.idx;
      ArrayNext(d, es, b, end, n, res, idx);
      r, after := ParseValue(d, es[n], was);
      if r.Err? {
        ArrayRefused(d, es, b, end, n, res, idx);
        return;
      }
      ghost var v := r.value;
      ElementDone(d, es, n, b, end, res, idx, before, was, after, de.idx, v);
      de.Skip();
    }

    /** The array at the cursor, by its count. */
    method ParseArray(ghost d: Doc, ghost t: Tree, ghost before: seq<byte>) returns (r: Result<Value>, ghost after: seq<byte>)
      requires Walks(d, de, before)
      requires 1 <= de.idx && Derives(d, t, de.idx) && t.ArrayTree? && Clean(d, before, de.idx)
      modifies de, de.input, de.strings
      ensures Walks(d, de, after) && Built(d, t, old(de.idx), before, after, de.idx, r)
      decreases t, 0
    {
      ghost var b, end := de.idx, After(t, de.idx);
      after := before;
      CountIs(d, t, b, de.counts);
      DoneNothing(d, before, b);
      TreeEnds(d, b);
      var es := de.CountElements();
      if es == 0 {
        de.Skip();
        DoneSkip(d, before, before, b, b);
        return Ok(Array([])), after;
      }
      var res: seq<Value> := [];
      ArrayBegins(d, t.elems, b);
      for n := 0 to es
        invariant Walks(d, de, after) && Done(d, before, after, b, de.idx)
        invariant InArray(d, t.elems, b, end, n, res, de.idx)
      {
        var v;
        v, after := ParseElement(d, t.elems, n, b, end, res, before, after);
        if v.Err? {
          return Err(v.error), after;
        }
        res := res + [v.value];
      }
      ArrayEnds(d, t.elems, b, res, de.idx);
      r := Ok(Array(res));
    }

    /** The name behind the cursor, copied out of the buffer; the cursor goes on to the colon. */
    method ParseKey(ghost d: Doc, ghost b: nat, ghost before: seq<byte>, ghost was: seq<byte>)
      returns (r: Result<seq<byte>>, ghost after: seq<byte>)
      requires Walks(d, de, was) && 1 <= b && de.idx + 2 < |d.indexes|
      requires d.k[de.idx + 1] == Str && Done(d, before, was, b, de.idx)
      modifies de, de.input, de.strings
      ensures Walks(d, de, after)
      ensures match StringOf(d.s, d.Pos(old(de.idx) + 1))
              case None => r.Err?
              case Some(key) => r == Ok(key) && de.idx == old(de.idx) + 2 && Done(d, before, after, b, de.idx)
    {
      de.Skip();
      var l;
      l, after := ReadString(d, de, was);
      if l.Err? {
        return Err(l.error), after;
      }
      r := Ok(de.input[l.value.start..l.value.start + l.value.len]);
      DoneMore(d, before, was, after, b, de.idx - 1, de.idx);
      DoneSkip(d, before, after, b, de.idx);
      de.Skip();
    }

    /** One name and its value: the cursor goes from the token before it to the token behind it. */
    method ParseMember(ghost d: Doc, ghost ms: seq<Tree>, ghost n: nat, ghost b: nat, ghost end: nat, ghost res: seq<Member>,
                       ghost before: seq<byte>, ghost was: seq<byte>)
      returns (r: Result<Member>, ghost after: seq<byte>)
      requires Walks(d, de, was)
      requires 1 <= b && n < |ms| && InMap(d, ms, b, end, n, res, de.idx) && Done(d, before, was, b, de.idx)
      modifies de, de.input, de.strings
      ensures Walks(d, de, after)
      ensures r.Err? ==> d.Members(ms, b + 1).None?
      ensures r.Ok? ==> InMap(d, ms, b, end, n + 1, res + [r.value], de.idx) && Done(d, before, after, b, de.idx)
      decreases ms, 0
    {
      ghost var idx := de.idx;
      MapNext(d, ms, b, end, n, res, idx);
      var key;
      key, after := ParseKey(d, b, before, was);
      if key.Err? {
        MapRefused(d, ms, b, end, n, res, idx);
        return Err(key.error), after;
      }
      ghost var mid := after;
      var v;
      v, after := ParseValue(d, ms[n], mid);
      if v.Err? {
        MapRefused(d, ms, b, end, n, res, idx);
        return Err(v.error), after;
      }
      var m := Member(key.value, v.value);
      MemberDone(d, ms, n, b, end, res, idx, before, mid, after, de.idx, m);
      de.Skip();
      r := Ok(m);
    }

    /** The object at the cursor, by its count. */
    method ParseMap(ghost d: Doc, ghost t: Tree, ghost before: seq<byte>) returns (r: Result<Value>, ghost after: seq<byte>)
      requires Walks(d, de, before)
      requires 1 <= de.idx && Derives(d, t, de.idx) && t.ObjectTree? && Clean(d, before, de.idx)
      modifies de, de.input, de.strings
      ensures Walks(d, de, after) && Built(d, t, old(de.idx), before, after, de.idx, r)
      decreases t, 0
    {
      ghost var b, end := de.idx, After(t, de.idx);
      after := before;
      CountIs(d, t, b, de.counts);
      DoneNothing(d, before, b);
      TreeEnds(d, b);
      var es := de.CountElements();
      if es == 0 {
        de.Skip();
        DoneSkip(d, before, before, b, b);
        return Ok(Object([])), after;
      }
      var res: seq<Member> := [];
      MapBegins(d, t.members, b);
      for n := 0 to es
        invariant Walks(d, de, after) && Done(d, before, after, b, de.idx)
        invariant InMap(d, t.members, b, end, n, res, de.idx)
      {
        var m;
        m, after := ParseMember(d, t.members, n, b, end, res, before, after);
        if m.Err? {
          return Err(m.error), after;
        }
        res := res + [m.value];
      }
      MapEnds(d, t.members, b, res, de.idx);
      r := Ok(Object(res));
    }
  }

  /**
   Parses an input into a value. Strings are unescaped in the buffer on the way; the cursor never leaves
   the structural index.
   */
  method ToValue(input: array<byte>, swar: bool) returns (r: Result<Value>)
    requires Followed(input[..])
    modifies input
    ensures match ValueOf(old(input[..]))
            case None => r.Err?
            case Some(v) => r == Ok(v)
  {
    var de;
    ghost var d, t, after;
    ghost var s := input[..];
    de, d, t := Start(input, swar);
    if de.Err? {
      return Err(de.error);
    }
    var owned := new OwnedDeserializer(de.value);
    r, after := owned.ParseValue(d, t, s);
  }
}
