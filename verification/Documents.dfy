/** Both stages on an input, and what the whole parser says about it. */
module Documents {
  import opened Bytes
  import opened Scanner
  import opened Grammar
  import opened Tape
  import opened Values
  import opened Walk
  import opened Deserializing
  import S1 = Stage1
  import S2 = Stage2

  function DocOf(s: seq<byte>): Doc
    requires S1.StructuralIndex(s).Ok?
  {
    var indexes := S1.StructuralIndex(s).value;
    Doc(s, indexes, S2.Kinds(s, indexes))
  }

  /** Both stages accept the input. */
  predicate Valid(s: seq<byte>) {
    S1.StructuralIndex(s).Ok? && Accepts(DocOf(s).k, 1)
  }

  /** The tree of an accepted input. */
  function TreeOf(s: seq<byte>): Tree
    requires Valid(s)
  {
    ValueAt(DocOf(s).k, 1).value.tree
  }

  /** The value of an input; none when either stage refuses it, or a string or number in it is refused. */
  function Parse(s: seq<byte>): Option<Value> {
    if Valid(s) then DocOf(s).Interp(TreeOf(s), 1) else None
  }

  lemma DocIsOk(s: seq<byte>)
    requires S1.StructuralIndex(s).Ok?
    ensures DocOf(s).Ok()
    ensures forall j :: 0 <= j < |DocOf(s).indexes| ==> DocOf(s).indexes[j] < |s|
  {
    IndexIsTape(s);
    TapeIsOk(s, S1.StructuralIndex(s).value);
  }

  /** Stage 2 accepts the tokens at the positions stage 1 stored in 32 bits. */
  predicate StoredValid(s: seq<byte>) {
    S1.StoredIndex(s).Ok? && Accepts(S2.Kinds(s, S1.StoredIndex(s).value), 1)
  }

  lemma StoredInBounds(s: seq<byte>)
    requires S1.StoredIndex(s).Ok?
    ensures forall j :: 0 <= j < |S1.StoredIndex(s).value| ==> S1.StoredIndex(s).value[j] < |s|
  {
    TokensExact(s, |s|);
    var t := Tokens(s, |s|);
    forall k | 0 <= k < |t| ensures S1.Wrapped(t)[k] < |s| {
      assert t[k] in t;
    }
  }

  /** Where the stored positions are those of the tokens, that is what both stages accept. */
  lemma AddressedStored(s: seq<byte>)
    requires S1.Addressed(s)
    ensures StoredValid(s) <==> Valid(s)
  {
    S1.AddressedIndexStored(s);
  }

  /** An input of more than 4 GB that is accepted, and rightly. */
  lemma LargeArrayAccepted(s: seq<byte>)
    requires s == [LBRACKET, RBRACKET] + seq<byte>(S1.U32_SIZE + 62, _ => SPACE)
    ensures S1.Addressed(s) && StoredValid(s) && Parse(s) == Some(Array([]))
  {
    S1.ArrayThenSpaces(s, S1.U32_SIZE + 62);
    AddressedStored(s);
    assert DocOf(s).k == [S2.KindAt(s, 0), BeginArray, EndArray];
  }

  /** The same array in an input of 4 GB, whose length is 0 in 32 bits, is refused. */
  lemma LargeEndRefused(s: seq<byte>)
    requires s == [LBRACKET, RBRACKET] + seq<byte>(S1.U32_SIZE - 2, _ => SPACE)
    ensures Parse(s) == Some(Array([])) && S1.StoredIndex(s) == Err(InternalError) && !StoredValid(s)
  {
    S1.EndWraps(s);
    assert DocOf(s).k == [S2.KindAt(s, 0), BeginArray, EndArray];
  }

  /** An array behind 2^32 - 1 spaces is refused, since its closing bracket is looked for at position 0. */
  lemma LargeArrayRefused(s: seq<byte>)
    requires s == seq<byte>(S1.U32_SIZE - 1, _ => SPACE) + [LBRACKET, RBRACKET]
    ensures Parse(s) == Some(Array([])) && !StoredValid(s)
  {
    S1.LargeIndexWraps(s);
    assert DocOf(s).k == [S2.KindAt(s, 0), BeginArray, EndArray];
    var stored := S2.Kinds(s, S1.StoredIndex(s).value);
    assert stored == [Junk, BeginArray, Junk];
    assert ValueAt(stored, 2).None? && ElemsAt(stored, 2).None?;
  }

  /** And one is accepted with other tokens than its own: the number that stands 4 GB behind the string is taken for it. */
  lemma LargeArrayMisread(s: seq<byte>)
    requires s == S1.MisreadHead() + seq<byte>(S1.U32_SIZE - 4, _ => SPACE) + [0x37, RBRACKET]
    ensures Valid(s) && DocOf(s).k[1..] == [BeginArray, Str, ValueSeparator, Prim, EndArray]
    ensures StoredValid(s) && S2.Kinds(s, S1.StoredIndex(s).value)[1..] == [BeginArray, Str, ValueSeparator, Str, EndArray]
  {
    S1.MisreadIndex(s);
    var root := S2.KindAt(s, 0);
    assert DocOf(s).k == [root, BeginArray, Str, ValueSeparator, Prim, EndArray];
    assert S2.Kinds(s, S1.StoredIndex(s).value) == [root, BeginArray, Str, ValueSeparator, Str, EndArray];
    ListOfTwo(DocOf(s).k);
    ListOfTwo(S2.Kinds(s, S1.StoredIndex(s).value));
  }

  lemma ListOfTwo(k: seq<Kind>)
    requires |k| == 6 && k[1] == BeginArray && k[2] == Str && k[3] == ValueSeparator && (k[4] == Str || k[4] == Prim)
    requires k[5] == EndArray
    ensures Accepts(k, 1)
  {
    assert ElemsAt(k, 4).Some? && ElemsAt(k, 4).value.next == 6;
    assert ElemsAt(k, 2).Some? && ElemsAt(k, 2).value.next == 6;
  }

  /**
   Runs both stages over the input and sets up the cursor in front of the first token, at the positions and
   counts the two stages found.
   */
  method FromSlice(input: array<byte>, swar: bool) returns (r: Result<Deserializer>)
    ensures r.Ok? <==> StoredValid(input[..])
    ensures r.Ok? ==> fresh(r.value) && fresh(r.value.strings) && r.value.input == input && r.value.idx == 0
    ensures r.Ok? ==> Stands(input[..], r.value)
    ensures input.Length < S1.U32_SIZE ==> S1.Addressed(input[..])
    ensures S1.Addressed(input[..]) ==> (r.Ok? <==> Valid(input[..]))
    ensures r.Ok? && S1.Addressed(input[..]) ==> Walks(DocOf(input[..]), r.value, input[..])
  {
    ghost var s := input[..];
    var indexes := S1.FindStructuralBits(input[..]);
    if input.Length < S1.U32_SIZE { S1.SmallIndexStored(s); }
    if S1.Addressed(s) { AddressedStored(s); }
    if indexes.Err? {
      return Err(indexes.error);
    }
    StoredInBounds(s);
    var counts := S2.Validate(input[..], indexes.value);
    if counts.Err? {
      return Err(counts.error);
    }
    var de := new Deserializer(input, indexes.value, counts.value, swar);
    if S1.Addressed(s) { StandsWalks(s, de); }
    r := Ok(de);
  }

  /** The cursor has the positions that were stored for `s`, and the counts of the brackets there. */
  ghost predicate Stands(s: seq<byte>, de: Deserializer)
    reads de
  {
    && StoredValid(s) && de.Valid() && de.structuralIndexes == S1.StoredIndex(s).value
    && S2.CountsExact(S2.Kinds(s, de.structuralIndexes), de.counts)
  }

  lemma StandsWalks(s: seq<byte>, de: Deserializer)
    requires Stands(s, de) && S1.Addressed(s) && de.input[..] == s
    ensures Walks(DocOf(s), de, s)
  {
    S1.AddressedIndexStored(s);
    DocIsOk(s);
    CountsAreExact(DocOf(s), de.counts, |de.counts|);
  }

  /** The stored positions are those of the tokens, or no cursor is handed out. */
  predicate Followed(s: seq<byte>) {
    S1.Addressed(s) || !StoredValid(s)
  }

  /** That is, the cursor is in front of the document's own tokens, if there is one. */
  lemma FollowedExact(s: seq<byte>)
    ensures Followed(s) <==> !StoredValid(s) || S1.StoredIndex(s) == S1.StructuralIndex(s)
  {
    S1.StoredExact(s);
  }

  /** What a builder returns then: the value of an addressed input, and an error for all others. */
  function ValueOf(s: seq<byte>): Option<Value>
    requires Followed(s)
  {
    if S1.Addressed(s) then Parse(s) else None
  }

  lemma SmallFollowed(s: seq<byte>)
    requires |s| < S1.U32_SIZE
    ensures Followed(s) && ValueOf(s) == Parse(s)
  {
    S1.SmallIndexStored(s);
  }

  lemma ParseIsInterp(s: seq<byte>)
    requires Valid(s)
    ensures Parse(s) == DocOf(s).Interp(TreeOf(s), 1)
  {}

  /** The whole tree stands behind the root entry, and nothing else. */
  lemma RootDerives(s: seq<byte>)
    requires Valid(s)
    ensures Derives(DocOf(s), TreeOf(s), 1) && After(TreeOf(s), 1) == |DocOf(s).k|
    ensures Clean(DocOf(s), s, 1)
  {
    TreeEnds(DocOf(s), 1);
  }

  /** The cursor a builder starts with: in front of the whole tree `t` of an addressed input, or none. */
  method Start(input: array<byte>, swar: bool) returns (r: Result<Deserializer>, ghost d: Doc, ghost t: Tree)
    requires Followed(input[..])
    ensures r.Err? ==> ValueOf(input[..]).None?
    ensures r.Ok? ==> fresh(r.value) && fresh(r.value.strings) && r.value.input == input && r.value.idx == 0
    ensures r.Ok? ==> Walks(d, r.value, input[..]) && Derives(d, t, 1) && Clean(d, input[..], 1)
    ensures r.Ok? ==> After(t, 1) == |d.k| && ValueOf(input[..]) == d.Interp(t, 1)
  {
    ghost var s := input[..];
    r := FromSlice(input, swar);
    d, t := Doc([], [], []), StrTree;
    if r.Ok? {
      d, t := DocOf(s), TreeOf(s);
      RootDerives(s);
      ParseIsInterp(s);
    }
  }
}
