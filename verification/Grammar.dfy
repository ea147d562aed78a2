/**
 The token grammar of sections 2 to 5 of RFC 8259, and a recursive-descent reading of it that says
 what a token sequence derives from any position on.
 */
module Grammar {
  import opened Bytes

  /** Token classes. `Prim` is a number by its first byte or an atom spelled in full; `Junk` starts no token. */
  datatype Kind = BeginObject | EndObject | BeginArray | EndArray | ValueSeparator | NameSeparator | Str | Prim | Junk

  /** Derivation trees. The members of an object are string names, each with the tree of its value. */
  datatype Tree = StrTree | PrimTree | ArrayTree(elems: seq<Tree>) | ObjectTree(members: seq<Tree>)

  /** The token sequence a tree derives. */
  function Flatten(t: Tree): (k: seq<Kind>)
    ensures k != []
    decreases t, 0
  {
    match t
    case StrTree => [Str]
    case PrimTree => [Prim]
    case ArrayTree(es) => [BeginArray] + (if es == [] then [EndArray] else FlattenElems(es))
    case ObjectTree(ms) => [BeginObject] + (if ms == [] then [EndObject] else FlattenMembers(ms))
  }

  /** Values separated by commas, with the closing bracket. */
  function FlattenElems(es: seq<Tree>): seq<Kind>
    requires es != []
    decreases es, 1
  {
    Flatten(es[0]) + (if |es| == 1 then [EndArray] else [ValueSeparator] + FlattenElems(es[1..]))
  }

  /** Names with their values separated by commas, with the closing brace. */
  function FlattenMembers(ms: seq<Tree>): seq<Kind>
    requires ms != []
    decreases ms, 1
  {
    [Str, NameSeparator]
    + (Flatten(ms[0]) + (if |ms| == 1 then [EndObject] else [ValueSeparator] + FlattenMembers(ms[1..])))
  }

  /** Tokens `[i..j)` of `k` are exactly `w`. */
  ghost predicate Spells(k: seq<Kind>, i: nat, j: nat, w: seq<Kind>) {
    i <= j <= |k| && k[i..j] == w
  }

  // ----- recursive descent

  /** A tree, or a list of trees, and the position after it. */
  datatype Parsed<+T> = Parsed(tree: T, next: nat)

  /** The value that starts at token `i`. */
  function ValueAt(k: seq<Kind>, i: nat): (r: Option<Parsed<Tree>>)
    ensures r.Some? ==> i < r.value.next <= |k|
    decreases |k| - i, 0
  {
    if i >= |k| then None
    else match k[i]
      case Str => Some(Parsed(StrTree, i + 1))
      case Prim => Some(Parsed(PrimTree, i + 1))
      case BeginArray =>
        if i + 1 < |k| && k[i + 1] == EndArray then Some(Parsed(ArrayTree([]), i + 2))
        else (match ElemsAt(k, i + 1)
              case Some(p) => Some(Parsed(ArrayTree(p.tree), p.next))
              case None => None)
      case BeginObject =>
        if i + 1 < |k| && k[i + 1] == EndObject then Some(Parsed(ObjectTree([]), i + 2))
        else (match MembersAt(k, i + 1)
              case Some(p) => Some(Parsed(ObjectTree(p.tree), p.next))
              case None => None)
      case _ => None
  }

  /** One or more values from token `i` on, separated by commas and closed by a bracket. */
  function ElemsAt(k: seq<Kind>, i: nat): (r: Option<Parsed<seq<Tree>>>)
    ensures r.Some? ==> i < r.value.next <= |k| && r.value.tree != []
    decreases if i <= |k| then |k| - i else 0, 1
  {
    match ValueAt(k, i)
    case None => None
    case Some(v) =>
      if v.next >= |k| then None
      else if k[v.next] == EndArray then Some(Parsed([v.tree], v.next + 1))
      else if k[v.next] != ValueSeparator then None
      else (match ElemsAt(k, v.next + 1)
            case Some(p) => Some(Parsed([v.tree] + p.tree, p.next))
            case None => None)
  }

  /** One or more name-value pairs from token `i` on, separated by commas and closed by a brace. */
  function MembersAt(k: seq<Kind>, i: nat): (r: Option<Parsed<seq<Tree>>>)
    ensures r.Some? ==> i < r.value.next <= |k| && r.value.tree != []
    decreases if i <= |k| then |k| - i else 0, 1
  {
    if i + 1 >= |k| || k[i] != Str || k[i + 1] != NameSeparator then None
    else match ValueAt(k, i + 2)
      case None => None
      case Some(v) =>
        if v.next >= |k| then None
        else if k[v.next] == EndObject then Some(Parsed([v.tree], v.next + 1))
        else if k[v.next] != ValueSeparator then None
        else (match MembersAt(k, v.next + 1)
              case Some(p) => Some(Parsed([v.tree] + p.tree, p.next))
              case None => None)
  }

  /** Tokens `[i..]` are one value and nothing else. */
  predicate Accepts(k: seq<Kind>, i: nat) {
    ValueAt(k, i).Some? && ValueAt(k, i).value.next == |k|
  }

  // ----- recursive descent reads exactly the grammar

  lemma SpellsConcat(k: seq<Kind>, i: nat, j: nat, m: nat, v: seq<Kind>, w: seq<Kind>)
    requires Spells(k, i, j, v) && Spells(k, j, m, w)
    ensures Spells(k, i, m, v + w)
  {
    assert k[i..m] == k[i..j] + k[j..m];
  }

  lemma SpellsSplit(k: seq<Kind>, i: nat, m: nat, v: seq<Kind>, w: seq<Kind>)
    requires Spells(k, i, m, v + w)
    ensures Spells(k, i, i + |v|, v) && Spells(k, i + |v|, m, w)
  {
    assert k[i..m] == k[i..i + |v|] + k[i + |v|..m];
    assert (v + w)[..|v|] == v && (v + w)[|v|..] == w;
  }

  lemma SpellsOne(k: seq<Kind>, i: nat)
    requires i < |k|
    ensures Spells(k, i, i + 1, [k[i]])
  {}

  lemma {:induction false} ValueSpells(k: seq<Kind>, i: nat)
    ensures var r := ValueAt(k, i); r.Some? ==> Spells(k, i, r.value.next, Flatten(r.value.tree))
    decreases if i <= |k| then |k| - i else 0, 2
  {
    var r := ValueAt(k, i);
    if r.Some? {
      var next := r.value.next;
      SpellsOne(k, i);
      match r.value.tree
      case StrTree =>
      case PrimTree =>
      case ArrayTree(es) =>
        if es == [] { SpellsOne(k, i + 1); } else { ElemsSpell(k, i + 1); }
        SpellsConcat(k, i, i + 1, next, [BeginArray], if es == [] then [EndArray] else FlattenElems(es));
      case ObjectTree(ms) =>
        if ms == [] { SpellsOne(k, i + 1); } else { MembersSpell(k, i + 1); }
        SpellsConcat(k, i, i + 1, next, [BeginObject], if ms == [] then [EndObject] else FlattenMembers(ms));
    }
  }

  lemma {:induction false} ElemsSpell(k: seq<Kind>, i: nat)
    ensures var r := ElemsAt(k, i); r.Some? ==> Spells(k, i, r.value.next, FlattenElems(r.value.tree))
    decreases if i <= |k| then |k| - i else 0, 3
  {
    var r := ElemsAt(k, i);
    if r.Some? {
      ValueSpells(k, i);
      var v := ValueAt(k, i).value;
      SpellsOne(k, v.next);
      if k[v.next] == EndArray {
        SpellsConcat(k, i, v.next, v.next + 1, Flatten(v.tree), [EndArray]);
      } else {
        ElemsSpell(k, v.next + 1);
        var rest := ElemsAt(k, v.next + 1).value;
        assert ([v.tree] + rest.tree)[1..] == rest.tree;
        SpellsConcat(k, v.next, v.next + 1, rest.next, [ValueSeparator], FlattenElems(rest.tree));
        SpellsConcat(k, i, v.next, rest.next, Flatten(v.tree), [ValueSeparator] + FlattenElems(rest.tree));
      }
    }
  }

  lemma {:induction false} MembersSpell(k: seq<Kind>, i: nat)
    ensures var r := MembersAt(k, i); r.Some? ==> Spells(k, i, r.value.next, FlattenMembers(r.value.tree))
    decreases if i <= |k| then |k| - i else 0, 3
  {
    var r := MembersAt(k, i);
    if r.Some? {
      ValueSpells(k, i + 2);
      var v := ValueAt(k, i + 2).value;
      assert Spells(k, i, i + 2, [Str, NameSeparator]);
      SpellsOne(k, v.next);
      if k[v.next] == EndObject {
        SpellsConcat(k, i + 2, v.next, v.next + 1, Flatten(v.tree), [EndObject]);
        SpellsConcat(k, i, i + 2, v.next + 1, [Str, NameSeparator], Flatten(v.tree) + [EndObject]);
      } else {
        MembersSpell(k, v.next + 1);
        var rest := MembersAt(k, v.next + 1).value;
        var tail := [ValueSeparator] + FlattenMembers(rest.tree);
        assert ([v.tree] + rest.tree)[1..] == rest.tree;
        SpellsConcat(k, v.next, v.next + 1, rest.next, [ValueSeparator], FlattenMembers(rest.tree));
        SpellsConcat(k, i + 2, v.next, rest.next, Flatten(v.tree), tail);
        SpellsConcat(k, i, i + 2, rest.next, [Str, NameSeparator], Flatten(v.tree) + tail);
      }
    }
  }

  lemma SpellsFirst(k: seq<Kind>, i: nat, j: nat, c: Kind, w: seq<Kind>)
    requires Spells(k, i, j, [c] + w)
    ensures i < |k| && k[i] == c && Spells(k, i + 1, j, w)
  {
    SpellsSplit(k, i, j, [c], w);
    assert k[i] == k[i..i + 1][0];
  }

  lemma FlattenOpens(t: Tree)
    ensures Flatten(t)[0] != EndArray
  {}

  lemma {:induction false} ValueReads(k: seq<Kind>, i: nat, j: nat, t: Tree)
    requires Spells(k, i, j, Flatten(t))
    ensures ValueAt(k, i) == Some(Parsed(t, j))
    decreases t, 0
  {
    match t
    case StrTree => SpellsFirst(k, i, j, Str, []);
    case PrimTree => SpellsFirst(k, i, j, Prim, []);
    case ArrayTree(es) =>
      if es == [] {
        SpellsFirst(k, i, j, BeginArray, [EndArray]);
        SpellsFirst(k, i + 1, j, EndArray, []);
      } else {
        SpellsFirst(k, i, j, BeginArray, FlattenElems(es));
        FlattenOpens(es[0]);
        assert k[i + 1] == k[i + 1..j][0];
        ElemsRead(k, i + 1, j, es);
      }
    case ObjectTree(ms) =>
      if ms == [] {
        SpellsFirst(k, i, j, BeginObject, [EndObject]);
        SpellsFirst(k, i + 1, j, EndObject, []);
      } else {
        SpellsFirst(k, i, j, BeginObject, FlattenMembers(ms));
        assert k[i + 1] == k[i + 1..j][0];
        MembersRead(k, i + 1, j, ms);
      }
  }

  lemma {:induction false} ElemsRead(k: seq<Kind>, i: nat, j: nat, es: seq<Tree>)
    requires es != [] && Spells(k, i, j, FlattenElems(es))
    ensures ElemsAt(k, i) == Some(Parsed(es, j))
    decreases es, 1
  {
    var f := Flatten(es[0]);
    var next := i + |f|;
    assert es == [es[0]] + es[1..];
    if |es| == 1 {
      SpellsSplit(k, i, j, f, [EndArray]);
      SpellsFirst(k, next, j, EndArray, []);
      assert es == [es[0]] && j == next + 1;
      ValueReads(k, i, next, es[0]);
    } else {
      SpellsSplit(k, i, j, f, [ValueSeparator] + FlattenElems(es[1..]));
      SpellsFirst(k, next, j, ValueSeparator, FlattenElems(es[1..]));
      ValueReads(k, i, next, es[0]);
      ElemsRead(k, next + 1, j, es[1..]);
    }
  }

  lemma MemberHead(k: seq<Kind>, i: nat, j: nat, f: seq<Kind>, tail: seq<Kind>)
    requires Spells(k, i, j, [Str, NameSeparator] + (f + tail))
    ensures i + 1 < |k| && k[i] == Str && k[i + 1] == NameSeparator
    ensures Spells(k, i + 2, i + 2 + |f|, f) && Spells(k, i + 2 + |f|, j, tail)
  {
    SpellsSplit(k, i, j, [Str, NameSeparator], f + tail);
    assert k[i] == k[i..i + 2][0] && k[i + 1] == k[i..i + 2][1];
    SpellsSplit(k, i + 2, j, f, tail);
  }

  lemma {:induction false} MembersRead(k: seq<Kind>, i: nat, j: nat, ms: seq<Tree>)
    requires ms != [] && Spells(k, i, j, FlattenMembers(ms))
    ensures MembersAt(k, i) == Some(Parsed(ms, j))
    decreases ms, 1
  {
    var f := Flatten(ms[0]);
    var next := i + 2 + |f|;
    assert ms == [ms[0]] + ms[1..];
    var tail := if |ms| == 1 then [EndObject] else [ValueSeparator] + FlattenMembers(ms[1..]);
    MemberHead(k, i, j, f, tail);
    ValueReads(k, i + 2, next, ms[0]);
    if |ms| == 1 {
      SpellsFirst(k, next, j, EndObject, []);
      assert ms == [ms[0]] && j == next + 1;
      LastMemberAt(k, i, ms[0], next);
    } else {
      NextMembersRead(k, next, j, ms[1..]);
      MoreMembersAt(k, i, ms[0], next, ms[1..], j);
    }
  }

  /** A name and a colon, and the value `t` up to token `next`. */
  ghost predicate MemberAt(k: seq<Kind>, i: nat, t: Tree, next: nat) {
    i + 1 < |k| && k[i] == Str && k[i + 1] == NameSeparator && ValueAt(k, i + 2) == Some(Parsed(t, next))
  }

  lemma LastMemberAt(k: seq<Kind>, i: nat, t: Tree, next: nat)
    requires MemberAt(k, i, t, next) && next < |k| && k[next] == EndObject
    ensures MembersAt(k, i) == Some(Parsed([t], next + 1))
  {}

  lemma MoreMembersAt(k: seq<Kind>, i: nat, t: Tree, next: nat, ts: seq<Tree>, j: nat)
    requires MemberAt(k, i, t, next) && next < |k| && k[next] == ValueSeparator
    requires MembersAt(k, next + 1) == Some(Parsed(ts, j))
    ensures MembersAt(k, i) == Some(Parsed([t] + ts, j))
  {}

  lemma {:induction false} NextMembersRead(k: seq<Kind>, i: nat, j: nat, ms: seq<Tree>)
    requires ms != [] && Spells(k, i, j, [ValueSeparator] + FlattenMembers(ms))
    ensures i < |k| && k[i] == ValueSeparator && MembersAt(k, i + 1) == Some(Parsed(ms, j))
    decreases ms, 2
  {
    SpellsFirst(k, i, j, ValueSeparator, FlattenMembers(ms));
    MembersRead(k, i + 1, j, ms);
  }

  /** Recursive descent accepts exactly the token sequences some tree derives. */
  lemma AcceptsDerivable(k: seq<Kind>, i: nat)
    requires i <= |k|
    ensures Accepts(k, i) <==> exists t :: k[i..] == Flatten(t)
    ensures forall t :: k[i..] == Flatten(t) ==> ValueAt(k, i) == Some(Parsed(t, |k|))
  {
    assert k[i..|k|] == k[i..];
    ValueSpells(k, i);
    if Accepts(k, i) { assert k[i..] == Flatten(ValueAt(k, i).value.tree); }
    forall t | k[i..] == Flatten(t) ensures ValueAt(k, i) == Some(Parsed(t, |k|)) {
      ValueReads(k, i, |k|, t);
    }
  }
}
