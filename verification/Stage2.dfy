/** Stage 2: the pushdown validation of the structural index, with an element count for every bracket. */
module Stage2 {
  import opened Bytes
  import opened Masks
  import opened Simd
  import opened Grammar

  // ----- atoms

  function IsNotStructuralOrWhitespace(b: byte): nat {
    if IsTerminator(b) then 0 else 1
  }

  predicate IsValidTrueAtom(s: seq<byte>, loc: nat) {
    var error := BitXor(BitAnd(Load(s, loc, 8), 0xffff_ffff), 0x6575_7274);
    BitOr(error, IsNotStructuralOrWhitespace(At(s, loc + 4))) == 0
  }

  predicate IsValidFalseAtom(s: seq<byte>, loc: nat) {
    var error := BitXor(BitAnd(Load(s, loc, 8), 0xff_ffff_ffff), 0x65_736c_6166);
    BitOr(error, IsNotStructuralOrWhitespace(At(s, loc + 5))) == 0
  }

  predicate IsValidNullAtom(s: seq<byte>, loc: nat) {
    var error := BitXor(BitAnd(Load(s, loc, 8), 0xffff_ffff), 0x6c6c_756e);
    BitOr(error, IsNotStructuralOrWhitespace(At(s, loc + 4))) == 0
  }

  /** The bytes of `word` stand at `loc`, followed by a terminator. */
  predicate Spelled(s: seq<byte>, loc: nat, word: seq<byte>) {
    (forall j :: 0 <= j < |word| ==> At(s, loc + j) == word[j]) && IsTerminator(At(s, loc + |word|))
  }

  lemma LoadSplit4(s: seq<byte>, i: nat)
    ensures Load(s, i, 8) % 0x1_0000_0000
            == At(s, i) + 0x100 * At(s, i + 1) + 0x1_0000 * At(s, i + 2) + 0x100_0000 * At(s, i + 3)
  {
    var high := Load(s, i + 4, 4);
    assert Load(s, i + 3, 5) == At(s, i + 3) + 256 * high;
    assert Load(s, i + 2, 6) == At(s, i + 2) + 256 * Load(s, i + 3, 5);
    assert Load(s, i + 1, 7) == At(s, i + 1) + 256 * Load(s, i + 2, 6);
  }

  lemma LoadSplit5(s: seq<byte>, i: nat)
    ensures Load(s, i, 8) % 0x100_0000_0000
            == At(s, i) + 0x100 * At(s, i + 1) + 0x1_0000 * At(s, i + 2) + 0x100_0000 * At(s, i + 3)
               + 0x1_0000_0000 * At(s, i + 4)
  {
    var high := Load(s, i + 5, 3);
    assert Load(s, i + 4, 4) == At(s, i + 4) + 256 * high;
    assert Load(s, i + 3, 5) == At(s, i + 3) + 256 * Load(s, i + 4, 4);
    assert Load(s, i + 2, 6) == At(s, i + 2) + 256 * Load(s, i + 3, 5);
    assert Load(s, i + 1, 7) == At(s, i + 1) + 256 * Load(s, i + 2, 6);
  }

  lemma MaskedEquals(v: nat, n: nat, word: nat, extra: nat)
    ensures BitOr(BitXor(BitAnd(v, Pow2(n) - 1), word), extra) == 0 <==> v % Pow2(n) == word && extra == 0
  {
    BitAndLow(v, n);
    BitXorZero(v % Pow2(n), word);
    BitOrBound(BitXor(v % Pow2(n), word), extra);
  }

  lemma Pow32()
    ensures Pow2(32) == 0x1_0000_0000 && Pow2(40) == 0x100_0000_0000
  {
    assert Pow2(8) == 256;
    PowSum(8, 8); PowSum(16, 16); PowSum(32, 8);
  }

  lemma {:induction false} PowSum(a: nat, b: nat)
    ensures Pow2(a + b) == Pow2(a) * Pow2(b)
  {
    if b > 0 {
      PowSum(a, b - 1);
      assert Pow2(a + b) == 2 * (Pow2(a) * Pow2(b - 1));
    }
  }

  lemma SpelledAt(s: seq<byte>, loc: nat, w: seq<byte>)
    requires 4 <= |w| <= 5
    ensures Spelled(s, loc, w) <==>
            At(s, loc) == w[0] && At(s, loc + 1) == w[1] && At(s, loc + 2) == w[2] && At(s, loc + 3) == w[3]
            && (|w| == 5 ==> At(s, loc + 4) == w[4]) && IsTerminator(At(s, loc + |w|))
  {
    if Spelled(s, loc, w) {
      assert At(s, loc + 0) == w[0] && At(s, loc + 1) == w[1] && At(s, loc + 2) == w[2] && At(s, loc + 3) == w[3];
    }
  }

  /** The word-sized comparisons accept exactly the spelled atoms. */
  lemma TrueAtom(s: seq<byte>, loc: nat)
    ensures IsValidTrueAtom(s, loc) <==> Spelled(s, loc, TRUE)
  {
    Pow32();
    MaskedEquals(Load(s, loc, 8), 32, 0x6575_7274, IsNotStructuralOrWhitespace(At(s, loc + 4)));
    LoadSplit4(s, loc);
    SpelledAt(s, loc, TRUE);
  }

  lemma FalseAtom(s: seq<byte>, loc: nat)
    ensures IsValidFalseAtom(s, loc) <==> Spelled(s, loc, FALSE)
  {
    Pow32();
    MaskedEquals(Load(s, loc, 8), 40, 0x65_736c_6166, IsNotStructuralOrWhitespace(At(s, loc + 5)));
    LoadSplit5(s, loc);
    SpelledAt(s, loc, FALSE);
  }

  lemma NullAtom(s: seq<byte>, loc: nat)
    ensures IsValidNullAtom(s, loc) <==> Spelled(s, loc, NULL)
  {
    Pow32();
    MaskedEquals(Load(s, loc, 8), 32, 0x6c6c_756e, IsNotStructuralOrWhitespace(At(s, loc + 4)));
    LoadSplit4(s, loc);
    SpelledAt(s, loc, NULL);
  }

  // ----- tokens

  /** The class of the token at position `p`: strings and numbers by their first byte, atoms in full. */
  function KindAt(s: seq<byte>, p: nat): Kind {
    var c := At(s, p);
    if c == LBRACE then BeginObject
    else if c == RBRACE then EndObject
    else if c == LBRACKET then BeginArray
    else if c == RBRACKET then EndArray
    else if c == COMMA then ValueSeparator
    else if c == COLON then NameSeparator
    else if c == QUOTE then Str
    else if c == MINUS || IsDigit(c) then Prim
    else if c == LOWER_T && Spelled(s, p, TRUE) then Prim
    else if c == LOWER_F && Spelled(s, p, FALSE) then Prim
    else if c == LOWER_N && Spelled(s, p, NULL) then Prim
    else Junk
  }

  /** The token classes at the structural indexes; entry 0 is the root and not a token. */
  function Kinds(s: seq<byte>, indexes: seq<nat>): seq<Kind> {
    seq(|indexes|, i requires 0 <= i < |indexes| => KindAt(s, indexes[i]))
  }

  predicate IsOpening(k: Kind) {
    k == BeginArray || k == BeginObject
  }

  /** Number of elements or members under a tree. */
  function Items(t: Tree): nat {
    match t
    case ArrayTree(es) => |es|
    case ObjectTree(ms) => |ms|
    case _ => 0
  }

  // ----- open brackets

  /** An open bracket: where it opened, where its current element starts, the count so far, and its kind. */
  datatype Frame = Frame(start: nat, elem: nat, cnt: nat, isObject: bool)

  /** The elements of a bracket read from token `i` on. */
  function ListAt(k: seq<Kind>, isObject: bool, i: nat): Option<Parsed<seq<Tree>>> {
    if isObject then MembersAt(k, i) else ElemsAt(k, i)
  }

  function ValuePos(f: Frame): nat {
    if f.isObject then f.elem + 2 else f.elem
  }

  /** `f` is a bracket with elements, of which `cnt - 1` have been read before the one at `elem`. */
  ghost predicate FrameOk(k: seq<Kind>, f: Frame) {
    && f.start + 1 <= f.elem && f.start + 1 < |k| && f.cnt >= 1
    && k[f.start] == (if f.isObject then BeginObject else BeginArray)
    && k[f.start + 1] != (if f.isObject then EndObject else EndArray)
    && var whole, rest := ListAt(k, f.isObject, f.start + 1), ListAt(k, f.isObject, f.elem);
       (whole.Some? <==> rest.Some?)
       && (whole.Some? ==> whole.value.next == rest.value.next
                           && |whole.value.tree| == f.cnt - 1 + |rest.value.tree|)
  }

  /** The current element of `f` has come to its value: past the name and the colon in an object. */
  ghost predicate AtValue(k: seq<Kind>, f: Frame) {
    f.isObject ==> f.elem + 1 < |k| && k[f.elem] == Str && k[f.elem + 1] == NameSeparator
  }

  /** `frames` are the brackets open around a position, outermost first, each the current value of the one before. */
  ghost predicate Open(k: seq<Kind>, frames: seq<Frame>)
    decreases |frames|, 0
  {
    frames != [] ==>
      FrameOk(k, frames[|frames| - 1]) && BracketAt(k, frames[..|frames| - 1], frames[|frames| - 1].start)
  }

  /** A value starts at token `b`, inside `frames`. */
  ghost predicate BracketAt(k: seq<Kind>, frames: seq<Frame>, b: nat)
    decreases |frames|, 1
  {
    Open(k, frames)
    && if frames == [] then b == 1
       else AtValue(k, frames[|frames| - 1]) && b == ValuePos(frames[|frames| - 1])
  }

  /** The value that started inside `frames` has just ended at token `i`. */
  ghost predicate ValueDone(k: seq<Kind>, frames: seq<Frame>, i: nat) {
    frames != [] && Open(k, frames) && AtValue(k, Top(frames))
    && ValueAt(k, ValuePos(Top(frames))).Some? && ValueAt(k, ValuePos(Top(frames))).value.next == i + 1
  }

  function Top(frames: seq<Frame>): Frame
    requires frames != []
  {
    frames[|frames| - 1]
  }

  /** The bracket at `b` has just closed at token `i` with `cnt` elements. */
  ghost predicate Closed(k: seq<Kind>, frames: seq<Frame>, b: nat, i: nat, cnt: nat) {
    BracketAt(k, frames, b) && b < i < |k| && IsOpening(k[b]) && !IsOpening(k[i])
    && ValueAt(k, b).Some? && ValueAt(k, b).value.next == i + 1 && Items(ValueAt(k, b).value.tree) == cnt
  }

  /** If what is inside cannot be read, the whole document cannot. */
  lemma {:induction false} BracketFails(k: seq<Kind>, frames: seq<Frame>, b: nat)
    requires BracketAt(k, frames, b) && ValueAt(k, b).None?
    ensures ValueAt(k, 1).None?
    decreases |frames|, 1
  {
    if frames != [] {
      ListFails(k, frames);
    }
  }

  lemma {:induction false} ListFails(k: seq<Kind>, frames: seq<Frame>)
    requires frames != [] && Open(k, frames)
    requires var f := Top(frames); ListAt(k, f.isObject, f.elem).None?
    ensures ValueAt(k, 1).None?
    decreases |frames|, 0
  {
    BracketFails(k, frames[..|frames| - 1], Top(frames).start);
  }

  /** A comma after the value: the next element starts at `i + 2`. */
  lemma NextElement(k: seq<Kind>, frames: seq<Frame>, i: nat)
    requires ValueDone(k, frames, i) && i + 1 < |k| && k[i + 1] == ValueSeparator
    ensures Open(k, Advanced(frames, i + 2))
  {
    var f, front := Top(frames), frames[..|frames| - 1];
    FrameAdvances(k, f, i);
    InnermostReplaced(k, frames, front, f.(elem := i + 2, cnt := f.cnt + 1));
  }

  lemma InnermostReplaced(k: seq<Kind>, frames: seq<Frame>, front: seq<Frame>, f: Frame)
    requires frames != [] && Open(k, frames) && front == frames[..|frames| - 1]
    requires FrameOk(k, f) && f.start == Top(frames).start
    ensures Open(k, front + [f])
  {
    assert BracketAt(k, front, f.start);
    var next := front + [f];
    assert next[..|next| - 1] == front && next[|next| - 1] == f;
  }

  /** The innermost bracket moved on to the element at `elem`. */
  ghost function Advanced(frames: seq<Frame>, elem: nat): seq<Frame>
    requires frames != []
  {
    frames[..|frames| - 1] + [Top(frames).(elem := elem, cnt := Top(frames).cnt + 1)]
  }

  lemma FrameAdvances(k: seq<Kind>, f: Frame, i: nat)
    requires FrameOk(k, f) && AtValue(k, f)
    requires ValueAt(k, ValuePos(f)).Some? && ValueAt(k, ValuePos(f)).value.next == i + 1
    requires i + 1 < |k| && k[i + 1] == ValueSeparator
    ensures FrameOk(k, f.(elem := i + 2, cnt := f.cnt + 1))
  {
    if f.isObject { MembersStep(k, f.elem, i); } else { ElemsStep(k, f.elem, i); }
  }

  lemma ElemsStep(k: seq<Kind>, elem: nat, i: nat)
    requires ValueAt(k, elem).Some? && ValueAt(k, elem).value.next == i + 1
    requires i + 1 < |k| && k[i + 1] == ValueSeparator
    ensures OneMore(ElemsAt(k, elem), ElemsAt(k, i + 2))
  {
    if ElemsAt(k, i + 2).Some? {
      assert ElemsAt(k, elem).value.tree == [ValueAt(k, elem).value.tree] + ElemsAt(k, i + 2).value.tree;
    }
  }

  lemma MembersStep(k: seq<Kind>, elem: nat, i: nat)
    requires elem + 1 < |k| && k[elem] == Str && k[elem + 1] == NameSeparator
    requires ValueAt(k, elem + 2).Some? && ValueAt(k, elem + 2).value.next == i + 1
    requires i + 1 < |k| && k[i + 1] == ValueSeparator
    ensures OneMore(MembersAt(k, elem), MembersAt(k, i + 2))
  {
    if MembersAt(k, i + 2).Some? {
      assert MembersAt(k, elem).value.tree == [ValueAt(k, elem + 2).value.tree] + MembersAt(k, i + 2).value.tree;
    }
  }

  /** `here` reads one tree more than `there`, up to the same place. */
  ghost predicate OneMore(here: Option<Parsed<seq<Tree>>>, there: Option<Parsed<seq<Tree>>>) {
    (here.Some? <==> there.Some?)
    && (here.Some? ==> here.value.next == there.value.next && |here.value.tree| == 1 + |there.value.tree|)
  }

  /** The closing bracket after the value. */
  lemma ClosingBracket(k: seq<Kind>, frames: seq<Frame>, i: nat)
    requires ValueDone(k, frames, i) && i + 1 < |k|
    requires k[i + 1] == if Top(frames).isObject then EndObject else EndArray
    ensures Closed(k, frames[..|frames| - 1], Top(frames).start, i + 1, Top(frames).cnt)
  {
    var f := Top(frames);
    assert ListAt(k, f.isObject, f.elem).value.tree == [ValueAt(k, ValuePos(f)).value.tree];
  }

  /** Anything else after the value, or nothing, is an error of the whole document. */
  lemma BadContinue(k: seq<Kind>, frames: seq<Frame>, i: nat)
    requires ValueDone(k, frames, i)
    requires i + 1 >= |k| || (k[i + 1] != ValueSeparator
                              && k[i + 1] != if Top(frames).isObject then EndObject else EndArray)
    ensures ValueAt(k, 1).None?
  {
    ListFails(k, frames);
  }

  /** An opening bracket that is not closed at once starts a frame with its first element. */
  lemma OpenBracket(k: seq<Kind>, frames: seq<Frame>, b: nat)
    requires BracketAt(k, frames, b) && b + 1 < |k| && IsOpening(k[b])
    requires k[b + 1] != if k[b] == BeginObject then EndObject else EndArray
    ensures Open(k, frames + [Frame(b, b + 1, 1, k[b] == BeginObject)])
  {
    var f := Frame(b, b + 1, 1, k[b] == BeginObject);
    assert (frames + [f])[..|frames|] == frames;
  }

  // ----- the machine

  datatype State = ObjectKey | ScopeEnd | MainArraySwitch

  datatype StackState = Start | Object | Array

  /** What a state goes on with after its own token. */
  datatype Step = ArrayContinue | ObjectContinue | ArrayBegin | ObjectBegin

  datatype Entry = Entry(state: StackState, lastStart: nat, cnt: nat)

  /** The stack below `depth` holds, above the start marker, every frame but the innermost `depth`-th. */
  ghost predicate Mirrors(stack: seq<Entry>, frames: seq<Frame>, depth: nat) {
    && 1 <= depth <= |stack| && depth - 1 <= |frames|
    && stack[0].state == Start
    && forall d {:trigger stack[d]} :: 1 <= d < depth ==> stack[d] == EntryOf(frames[d - 1])
  }

  function EntryOf(f: Frame): Entry {
    Entry(if f.isObject then Object else Array, f.start, f.cnt)
  }

  /** Every bracket opened before token `n`, except those still open, is read and has its count. */
  ghost predicate CountsDone(k: seq<Kind>, counts: seq<nat>, open: set<nat>, n: nat) {
    n <= |k| == |counts| && forall b :: 1 <= b < n && IsOpening(k[b]) && b !in open ==> Counted(k, counts, b)
  }

  ghost predicate Counted(k: seq<Kind>, counts: seq<nat>, b: nat)
    requires b < |counts|
  {
    ValueAt(k, b).Some? && counts[b] == Items(ValueAt(k, b).value.tree)
  }

  ghost function Starts(frames: seq<Frame>): set<nat> {
    if frames == [] then {} else Starts(frames[..|frames| - 1]) + {Top(frames).start}
  }

  /** Every opening bracket of an accepted document has its number of elements or members. */
  ghost predicate CountsExact(k: seq<Kind>, counts: seq<nat>) {
    |counts| == |k| && forall b :: 1 <= b < |k| && IsOpening(k[b]) ==> Counted(k, counts, b)
  }

  lemma StartsPush(frames: seq<Frame>, f: Frame)
    ensures Starts(frames + [f]) == Starts(frames) + {f.start}
  {
    assert (frames + [f])[..|frames|] == frames;
  }

  lemma SameStarts(frames: seq<Frame>, elem: nat)
    requires frames != []
    ensures Starts(Advanced(frames, elem)) == Starts(frames)
  {
    StartsPop(frames);
    StartsPush(frames[..|frames| - 1], Top(Advanced(frames, elem)));
  }

  lemma StartsPop(frames: seq<Frame>)
    requires frames != []
    ensures Starts(frames) == Starts(frames[..|frames| - 1]) + {Top(frames).start}
  {
  }

  // ----- the run invariant on values

  /** Everything the machine holds: counts and stack contents, frames, depth, start, count and token. */
  datatype Config = Config(counts: seq<nat>, stack: seq<Entry>, frames: seq<Frame>,
                           depth: nat, lastStart: nat, cnt: nat, i: nat)

  /** Between transitions. */
  ghost predicate Running(k: seq<Kind>, m: Config, state: State) {
    && 1 <= m.depth < m.i < |k| && Mirrors(m.stack, m.frames, m.depth)
    && (if state == ScopeEnd then
          |m.frames| == m.depth - 1 && Closed(k, m.frames, m.lastStart, m.i, m.cnt)
          && CountsDone(k, m.counts, Starts(m.frames) + {m.lastStart}, m.i)
        else
          && |m.frames| == m.depth && Open(k, m.frames)
          && Top(m.frames) == Frame(m.lastStart, m.i, m.cnt, state == ObjectKey)
          && CountsDone(k, m.counts, Starts(m.frames), m.i)
          && (state == ObjectKey ==> k[m.i] == Str))
  }

  /** The token is an opening bracket that has been pushed. */
  ghost predicate Begun(k: seq<Kind>, m: Config, isObject: bool) {
    && 1 <= m.depth <= m.i < |k| && Mirrors(m.stack, m.frames, m.depth)
    && |m.frames| == m.depth - 1 && BracketAt(k, m.frames, m.i) && m.lastStart == m.i && m.cnt == 1
    && k[m.i] == (if isObject then BeginObject else BeginArray)
    && CountsDone(k, m.counts, Starts(m.frames) + {m.lastStart}, m.i + 1)
  }

  /** The token ends the value of the current element of the innermost bracket. */
  ghost predicate ValueEnds(k: seq<Kind>, m: Config, isObject: bool) {
    && 1 <= m.depth < m.i < |k| && Mirrors(m.stack, m.frames, m.depth)
    && |m.frames| == m.depth && ValueDone(k, m.frames, m.i)
    && Top(m.frames).start == m.lastStart && Top(m.frames).cnt == m.cnt && Top(m.frames).isObject == isObject
    && CountsDone(k, m.counts, Starts(m.frames), m.i + 1)
  }

  function CloseOf(isObject: bool): Kind {
    if isObject then EndObject else EndArray
  }

  lemma CommaGoesOn(k: seq<Kind>, m: Config, n: Config, isObject: bool)
    requires ValueEnds(k, m, isObject) && m.i + 2 < |k| && k[m.i + 1] == ValueSeparator
    requires isObject ==> k[m.i + 2] == Str
    requires n == m.(frames := Advanced(m.frames, m.i + 2), cnt := m.cnt + 1, i := m.i + 2)
    ensures Running(k, n, if isObject then ObjectKey else MainArraySwitch)
  {
    NextElement(k, m.frames, m.i);
    SameStarts(m.frames, m.i + 2);
    MirrorsAdvanced(m.stack, m.frames, m.depth, m.i + 2);
    CountsSkip(k, m.counts, Starts(m.frames), m.i + 1);
  }

  lemma MirrorsAdvanced(stack: seq<Entry>, frames: seq<Frame>, depth: nat, elem: nat)
    requires Mirrors(stack, frames, depth) && |frames| == depth
    ensures |Advanced(frames, elem)| == depth
    ensures Top(Advanced(frames, elem)) == Top(frames).(elem := elem, cnt := Top(frames).cnt + 1)
    ensures Mirrors(stack, Advanced(frames, elem), depth)
  {}

  lemma CountsSkip(k: seq<Kind>, counts: seq<nat>, open: set<nat>, n: nat)
    requires CountsDone(k, counts, open, n) && n < |k| && !IsOpening(k[n])
    ensures CountsDone(k, counts, open, n + 1)
  {}

  lemma CommaFails(k: seq<Kind>, m: Config, isObject: bool)
    requires ValueEnds(k, m, isObject) && m.i + 1 < |k| && k[m.i + 1] == ValueSeparator
    requires m.i + 2 >= |k| || (isObject && k[m.i + 2] != Str)
    ensures ValueAt(k, 1).None?
  {
    NextElement(k, m.frames, m.i);
    ListFails(k, Advanced(m.frames, m.i + 2));
  }

  lemma CloseGoesOn(k: seq<Kind>, m: Config, n: Config, isObject: bool)
    requires ValueEnds(k, m, isObject) && m.i + 1 < |k| && k[m.i + 1] == CloseOf(isObject)
    requires n == m.(frames := m.frames[..|m.frames| - 1], i := m.i + 1)
    ensures Running(k, n, ScopeEnd)
  {
    ClosingBracket(k, m.frames, m.i);
    StartsPop(m.frames);
  }

  lemma EmptyGoesOn(k: seq<Kind>, m: Config, n: Config, isObject: bool)
    requires Begun(k, m, isObject) && m.i + 1 < |k| && k[m.i + 1] == CloseOf(isObject)
    requires n == m.(cnt := 0, i := m.i + 1)
    ensures Running(k, n, ScopeEnd)
  {}

  lemma FirstGoesOn(k: seq<Kind>, m: Config, n: Config, isObject: bool)
    requires Begun(k, m, isObject) && m.i + 1 < |k| && k[m.i + 1] != CloseOf(isObject)
    requires isObject ==> k[m.i + 1] == Str
    requires n == m.(frames := m.frames + [Frame(m.i, m.i + 1, 1, isObject)], i := m.i + 1)
    ensures Running(k, n, if isObject then ObjectKey else MainArraySwitch)
  {
    OpenBracket(k, m.frames, m.i);
    StartsPush(m.frames, Frame(m.i, m.i + 1, 1, isObject));
  }

  lemma FirstFails(k: seq<Kind>, m: Config, isObject: bool)
    requires Begun(k, m, isObject)
    requires m.i + 1 >= |k| || (isObject && k[m.i + 1] != Str && k[m.i + 1] != EndObject)
    ensures ValueAt(k, 1).None?
  {
    BracketFails(k, m.frames, m.i);
  }

  /** A value starts at the current token, in the innermost bracket, which opened at `start`. */
  ghost predicate ValueStarts(k: seq<Kind>, m: Config, start: nat, isObject: bool) {
    && 1 <= m.depth < m.i < |k| && Mirrors(m.stack, m.frames, m.depth)
    && |m.frames| == m.depth && BracketAt(k, m.frames, m.i)
    && Top(m.frames).start == m.lastStart == start && Top(m.frames).cnt == m.cnt && Top(m.frames).isObject == isObject
    && CountsDone(k, m.counts, Starts(m.frames), m.i)
  }

  lemma PushBegins(k: seq<Kind>, m: Config, n: Config, isObject: bool)
    requires ValueStarts(k, m, m.lastStart, isObject) && IsOpening(k[m.i]) && m.depth < |m.stack|
    requires n.stack == m.stack[m.depth := Entry(if isObject then Object else Array, m.lastStart, m.cnt)]
    requires n.counts == m.counts && n.frames == m.frames && n.depth == m.depth + 1
    requires n.lastStart == m.i && n.cnt == 1 && n.i == m.i
    ensures Begun(k, n, k[m.i] == BeginObject)
  {}

  lemma RootBegins(k: seq<Kind>, n: Config)
    requires |k| == |n.counts| == |n.stack| && 1 < |k| && IsOpening(k[1])
    requires n.frames == [] && n.depth == 1 && n.lastStart == 1 && n.cnt == 1 && n.i == 1 && n.stack[0].state == Start
    ensures Begun(k, n, k[1] == BeginObject)
  {}

  lemma RootScalar(k: seq<Kind>, counts: seq<nat>, ok: bool)
    requires |k| == |counts| && 1 < |k| && !IsOpening(k[1]) && (ok <==> k[1] == Str || k[1] == Prim)
    ensures Accepts(k, 1) <==> ok && |k| == 2
    ensures |k| == 2 ==> CountsExact(k, counts)
  {}

  lemma ScalarEnds(k: seq<Kind>, m: Config, isObject: bool, ok: bool)
    requires ValueStarts(k, m, m.lastStart, isObject) && !IsOpening(k[m.i])
    requires ok <==> k[m.i] == Str || k[m.i] == Prim
    ensures ok ==> ValueEnds(k, m, isObject)
    ensures !ok ==> ValueAt(k, 1).None?
  {
    if ok {
      CountsSkip(k, m.counts, Starts(m.frames), m.i);
    } else {
      BracketFails(k, m.frames, m.i);
    }
  }

  lemma KeyFails(k: seq<Kind>, m: Config)
    requires Running(k, m, ObjectKey)
    requires m.i + 2 >= |k| || k[m.i + 1] != NameSeparator
    ensures ValueAt(k, 1).None?
  {
    ListFails(k, m.frames);
  }

  lemma KeyGoesOn(k: seq<Kind>, m: Config, n: Config)
    requires Running(k, m, ObjectKey) && m.i + 2 < |k| && k[m.i + 1] == NameSeparator
    requires n == m.(i := m.i + 2)
    ensures ValueStarts(k, n, n.lastStart, true)
  {
    CountsSkip(k, m.counts, Starts(m.frames), m.i);
    CountsSkip(k, m.counts, Starts(m.frames), m.i + 1);
  }

  lemma ElementGoesOn(k: seq<Kind>, m: Config)
    requires Running(k, m, MainArraySwitch)
    ensures ValueStarts(k, m, m.lastStart, false)
  {}

  /** Popping the stack restores the bracket around the one that closed, or ends the document. */
  lemma ScopeCloses(k: seq<Kind>, m: Config, n: Config)
    requires Running(k, m, ScopeEnd) && |m.counts| == |k|
    requires n.counts == m.counts[m.lastStart := m.cnt] && n.stack == m.stack && n.frames == m.frames
    requires n.depth == m.depth - 1 && n.i == m.i
    requires n.lastStart == m.stack[n.depth].lastStart && n.cnt == m.stack[n.depth].cnt
    ensures m.stack[n.depth].state == Start <==> n.depth == 0
    ensures n.depth == 0 ==> (Accepts(k, 1) <==> m.i + 1 == |k|) && (m.i + 1 == |k| ==> CountsExact(k, n.counts))
    ensures n.depth > 0 ==> ValueEnds(k, n, m.stack[n.depth].state == Object)
  {
    CountsClose(k, m.counts, m.frames, m.lastStart, m.i, m.cnt);
  }

  lemma CountsClose(k: seq<Kind>, counts: seq<nat>, frames: seq<Frame>, b: nat, i: nat, cnt: nat)
    requires CountsDone(k, counts, Starts(frames) + {b}, i) && Closed(k, frames, b, i, cnt)
    ensures CountsDone(k, counts[b := cnt], Starts(frames), i + 1)
  {}

  /** Byte `c` starts a token of kind `k`, as far as punctuation and quotes go. */
  predicate Matches(c: byte, k: Kind) {
    && (c == COMMA <==> k == ValueSeparator) && (c == COLON <==> k == NameSeparator)
    && (c == QUOTE <==> k == Str)
    && (c == LBRACE <==> k == BeginObject) && (c == RBRACE <==> k == EndObject)
    && (c == LBRACKET <==> k == BeginArray) && (c == RBRACKET <==> k == EndArray)
  }

  lemma ByteOfKind(s: seq<byte>, p: nat)
    ensures Matches(At(s, p), KindAt(s, p))
  {}

  lemma ScalarKind(s: seq<byte>, p: nat)
    ensures KindAt(s, p) == Str || KindAt(s, p) == Prim <==>
            if At(s, p) == LOWER_T then IsValidTrueAtom(s, p)
            else if At(s, p) == LOWER_F then IsValidFalseAtom(s, p)
            else if At(s, p) == LOWER_N then IsValidNullAtom(s, p)
            else At(s, p) == QUOTE || At(s, p) == MINUS || IsDigit(At(s, p))
  {
    TrueAtom(s, p); FalseAtom(s, p); NullAtom(s, p);
  }

  /** `k` are the token classes at the indexes. */
  ghost predicate Classified(s: seq<byte>, indexes: seq<nat>, k: seq<Kind>) {
    |k| == |indexes| && forall j {:trigger KindAt(s, indexes[j])} :: 0 <= j < |k| ==> k[j] == KindAt(s, indexes[j])
  }

  /** How a transition ends: the next state is set, the document is refused, or it is accepted. */
  datatype Outcome = Go | Fail(error: ErrorType) | Done

  /** The variables of the machine; its `goto` targets and continuation macros are methods. */
  class Validator {
    const input: seq<byte>
    const indexes: seq<nat>
    var counts: seq<nat>
    var stack: seq<Entry>
    var depth: nat
    var lastStart: nat
    var cnt: nat
    var i: nat
    var idx: nat
    var c: byte
    var state: State
    ghost var frames: seq<Frame>
    ghost const k: seq<Kind>

    ghost predicate Valid()
      reads this
    {
      && |counts| == |stack| == |indexes| == |k|
      && (forall j :: 0 <= j < |indexes| ==> indexes[j] < |input|)
      && Classified(input, indexes, k)
      && (1 <= i < |indexes| ==> idx == indexes[i] && c == input[idx] && Matches(c, k[i]))
    }

    /** The contents of the machine as a value. */
    ghost function Now(): Config
      reads this
    {
      Config(counts, stack, frames, depth, lastStart, cnt, i)
    }

    /** The run invariant between transitions. */
    ghost predicate InState()
      reads this
    {
      Valid() && Running(k, Now(), state)
    }

    constructor (input: seq<byte>, indexes: seq<nat>)
      requires forall j :: 0 <= j < |indexes| ==> indexes[j] < |input|
      ensures this.input == input && this.indexes == indexes && k == Kinds(input, indexes)
      ensures Valid()
      ensures depth == 0 && lastStart == 1 && cnt == 0 && i == 0 && frames == []
    {
      this.input, this.indexes := input, indexes;
      // the contents of the two vectors are left as allocated
      var someCounts := new nat[|indexes|];
      var someStack := new Entry[|indexes|];
      counts, stack := someCounts[..], someStack[..];
      depth, lastStart, cnt, i, idx, c, state := 0, 1, 0, 0, 0, 0, ScopeEnd;
      frames := [];
      k := Kinds(input, indexes);
    }

    /** Moves on to the next token; fails at the end of the index. */
    method UpdateChar() returns (ok: bool)
      requires Valid() && i < |indexes|
      modifies this`i, this`idx, this`c
      ensures Valid()
      ensures ok == (old(i) + 1 < |indexes|)
      ensures ok ==> i == old(i) + 1
      ensures !ok ==> i == old(i)
    {
      if i + 1 >= |indexes| { return false; }
      i := i + 1;
      idx := indexes[i];
      c := input[idx];
      ByteOfKind(input, idx);
      return true;
    }

    /** Whether the token is a string, a number by its first byte, or an atom spelled in full. */
    method IsScalar() returns (ok: bool)
      requires Valid() && 1 <= i < |indexes|
      ensures ok <==> k[i] == Str || k[i] == Prim
    {
      ScalarKind(input, idx);
      if c == LOWER_T {
        ok := IsValidTrueAtom(input, idx);
      } else if c == LOWER_F {
        ok := IsValidFalseAtom(input, idx);
      } else if c == LOWER_N {
        ok := IsValidNullAtom(input, idx);
      } else {
        ok := c == QUOTE || c == MINUS || IsDigit(c);
      }
    }

    function ScalarError(): ErrorType
      reads this
    {
      if c == LOWER_T || c == LOWER_F then ExpectedBoolean
      else if c == LOWER_N then ExpectedNull
      else InternalError
    }

    method Push(s: StackState)
      requires Valid() && depth < i < |indexes|
      modifies this`depth, this`lastStart, this`cnt, this`stack
      ensures Valid()
      ensures depth == old(depth) + 1 && lastStart == i && cnt == 1
      ensures stack == old(stack)[old(depth) := Entry(s, old(lastStart), old(cnt))]
    {
      stack := stack[depth := Entry(s, lastStart, cnt)];
      depth := depth + 1;
      lastStart := i;
      cnt := 1;
    }

    /** The state `Start`, kept out of the loop. */
    method Begin() returns (r: Outcome)
      requires Valid() && depth == 0 && lastStart == 1 && cnt == 0 && i == 0 && frames == []
      modifies this
      ensures r.Go? ==> InState()
      ensures r.Fail? ==> !Accepts(k, 1)
      ensures r.Done? ==> Valid() && Accepts(k, 1) && CountsExact(k, counts)
    {
      if |indexes| == 0 { return Fail(Syntax); }
      var ok := UpdateChar();
      if !ok { return Fail(Syntax); }
      if c == LBRACE || c == LBRACKET {
        Push(Start);
        RootBegins(k, Now());
        if c == LBRACE {
          r := ObjectBegin();
        } else {
          r := ArrayBegin();
        }
      } else {
        ok := IsScalar();
        RootScalar(k, counts, ok);
        if !ok {
          return Fail(if c == LOWER_T || c == LOWER_F || c == LOWER_N then ExpectedNull else InternalError);
        }
        if i + 1 < |indexes| { return Fail(TrailingCharacters); }
        return Done;
      }
    }

    // ----- continuations

    /** The innermost bracket, behind its last element, is closed by the current token. */
    method Close(ghost m: Config, ghost isObject: bool)
      requires Valid() && ValueEnds(k, m, isObject) && Now() == m.(i := m.i + 1) && i < |indexes| && k[i] == CloseOf(isObject)
      modifies this`frames, this`state
      ensures InState()
    {
      frames := frames[..|frames| - 1];
      state := ScopeEnd;
      CloseGoesOn(k, m, Now(), isObject);
    }

    /** The bracket just pushed is closed by the current token. */
    method CloseEmpty(ghost m: Config, ghost isObject: bool)
      requires Valid() && Begun(k, m, isObject) && Now() == m.(i := m.i + 1) && i < |indexes| && k[i] == CloseOf(isObject)
      modifies this`cnt, this`state
      ensures InState()
    {
      cnt := 0;
      state := ScopeEnd;
      EmptyGoesOn(k, m, Now(), isObject);
    }

    /** The first element or name of the bracket just pushed is the current token. */
    method OpenFirst(ghost m: Config, isObject: bool)
      requires Valid() && Begun(k, m, isObject) && Now() == m.(i := m.i + 1) && i < |indexes|
      requires k[i] != CloseOf(isObject) && (isObject ==> k[i] == Str)
      modifies this`frames, this`state
      ensures InState()
    {
      frames := frames + [Frame(m.i, m.i + 1, 1, isObject)];
      state := if isObject then ObjectKey else MainArraySwitch;
      FirstGoesOn(k, m, Now(), isObject);
    }

    /** Behind the comma the next element starts. */
    method ArrayComma(ghost m: Config) returns (r: Outcome)
      requires Valid() && ValueEnds(k, m, false) && Now() == m.(i := m.i + 1) && i < |indexes| && c == COMMA
      modifies this`cnt, this`i, this`idx, this`c, this`frames, this`state
      ensures r.Go? ==> InState() && i > old(i)
      ensures r.Fail? ==> !Accepts(k, 1)
      ensures !r.Done?
    {
      assert k[m.i + 1] == ValueSeparator;
      cnt := cnt + 1;
      var ok := UpdateChar();
      if !ok { CommaFails(k, m, false); return Fail(Syntax); }
      frames := Advanced(frames, i);
      assert Now() == m.(frames := Advanced(m.frames, m.i + 2), cnt := m.cnt + 1, i := m.i + 2);
      state := MainArraySwitch;
      CommaGoesOn(k, m, Now(), false);
      return Go;
    }

    method ArrayContinue() returns (r: Outcome)
      requires Valid() && ValueEnds(k, Now(), false)
      modifies this
      ensures r.Go? ==> InState() && i > old(i)
      ensures r.Fail? ==> !Accepts(k, 1)
      ensures !r.Done?
    {
      ghost var m := Now();
      var ok := UpdateChar();
      if !ok { BadContinue(k, frames, m.i); return Fail(Syntax); }
      if c == COMMA {
        r := ArrayComma(m);
      } else if c == RBRACKET {
        Close(m, false);
        return Go;
      } else {
        BadContinue(k, frames, m.i);
        return Fail(ExpectedArrayContent);
      }
    }

    /** Behind the comma the next member starts. */
    method ObjectComma(ghost m: Config) returns (r: Outcome)
      requires Valid() && ValueEnds(k, m, true) && Now() == m.(i := m.i + 1) && i < |indexes| && c == COMMA
      modifies this`cnt, this`i, this`idx, this`c, this`frames, this`state
      ensures r.Go? ==> InState() && i > old(i)
      ensures r.Fail? ==> !Accepts(k, 1)
      ensures !r.Done?
    {
      cnt := cnt + 1;
      var ok := UpdateChar();
      if !ok { CommaFails(k, m, true); return Fail(Syntax); }
      if c != QUOTE { CommaFails(k, m, true); return Fail(ExpectedObjectKey); }
      frames := Advanced(frames, i);
      state := ObjectKey;
      CommaGoesOn(k, m, Now(), true);
      return Go;
    }

    method ObjectContinue() returns (r: Outcome)
      requires Valid() && ValueEnds(k, Now(), true)
      modifies this
      ensures r.Go? ==> InState() && i > old(i)
      ensures r.Fail? ==> !Accepts(k, 1)
      ensures !r.Done?
    {
      ghost var m := Now();
      var ok := UpdateChar();
      if !ok { BadContinue(k, frames, m.i); return Fail(Syntax); }
      if c == COMMA {
        r := ObjectComma(m);
      } else if c == RBRACE {
        Close(m, true);
        return Go;
      } else {
        BadContinue(k, frames, m.i);
        return Fail(ExpectedObjectContent);
      }
    }

    method ArrayBegin() returns (r: Outcome)
      requires Valid() && Begun(k, Now(), false)
      modifies this
      ensures r.Go? ==> InState() && i > old(i)
      ensures r.Fail? ==> !Accepts(k, 1)
      ensures !r.Done?
    {
      ghost var m := Now();
      var ok := UpdateChar();
      if !ok { FirstFails(k, m, false); return Fail(Syntax); }
      if c == RBRACKET {
        CloseEmpty(m, false);
      } else {
        OpenFirst(m, false);
      }
      return Go;
    }

    method ObjectBegin() returns (r: Outcome)
      requires Valid() && Begun(k, Now(), true)
      modifies this
      ensures r.Go? ==> InState() && i > old(i)
      ensures r.Fail? ==> !Accepts(k, 1)
      ensures !r.Done?
    {
      ghost var m := Now();
      var ok := UpdateChar();
      if !ok { FirstFails(k, m, true); return Fail(Syntax); }
      if c == QUOTE {
        OpenFirst(m, true);
      } else if c == RBRACE {
        CloseEmpty(m, true);
      } else {
        FirstFails(k, m, true);
        return Fail(ExpectedObjectContent);
      }
      return Go;
    }

    // ----- states

    /** The value of a member or element at the current token: a scalar is done, a bracket is pushed. */
    method Value(s: StackState) returns (r: Outcome, pushed: bool)
      requires s != Start && Valid() && ValueStarts(k, Now(), lastStart, s == Object)
      modifies this`depth, this`lastStart, this`cnt, this`stack
      ensures Valid() && !r.Done?
      ensures r.Fail? ==> !Accepts(k, 1)
      ensures r.Go? && pushed ==>
        (c == LBRACE || c == LBRACKET) && Begun(k, Now(), c == LBRACE)
      ensures r.Go? && !pushed ==> ValueEnds(k, Now(), s == Object)
    {
      ghost var m := Now();
      if c == LBRACE || c == LBRACKET {
        Push(s);
        PushBegins(k, m, Now(), s == Object);
        return Go, true;
      }
      var ok := IsScalar();
      ScalarEnds(k, m, s == Object, ok);
      if ok {
        return Go, false;
      }
      return Fail(ScalarError()), false;
    }

    method StateObjectKey() returns (r: Outcome)
      requires InState() && state == ObjectKey
      modifies this
      ensures r.Go? ==> InState() && i > old(i)
      ensures r.Fail? ==> !Accepts(k, 1)
      ensures !r.Done?
    {
      ghost var m := Now();
      var ok := UpdateChar();
      if !ok { KeyFails(k, m); return Fail(Syntax); }
      if c != COLON { KeyFails(k, m); return Fail(ExpectedObjectColon); }
      ok := UpdateChar();
      if !ok { KeyFails(k, m); return Fail(Syntax); }
      KeyGoesOn(k, m, Now());
      var pushed;
      r, pushed := Value(Object);
      if r.Go? {
        if !pushed {
          r := ObjectContinue();
        } else if c == LBRACE {
          r := ObjectBegin();
        } else {
          r := ArrayBegin();
        }
      }
    }

    method StateMainArraySwitch() returns (r: Outcome)
      requires InState() && state == MainArraySwitch
      modifies this
      ensures r.Go? ==> InState() && i > old(i)
      ensures r.Fail? ==> !Accepts(k, 1)
      ensures !r.Done?
    {
      ElementGoesOn(k, Now());
      var pushed;
      r, pushed := Value(Array);
      if r.Go? {
        if !pushed {
          r := ArrayContinue();
        } else if c == LBRACE {
          r := ObjectBegin();
        } else {
          r := ArrayBegin();
        }
      }
    }

    method StateScopeEnd() returns (r: Outcome)
      requires InState() && state == ScopeEnd
      modifies this
      ensures r.Go? ==> InState() && i > old(i)
      ensures r.Fail? ==> !Accepts(k, 1)
      ensures r.Done? ==> Valid() && Accepts(k, 1) && CountsExact(k, counts)
    {
      ghost var m := Now();
      if depth == 0 {
        assert false;
      }
      depth := depth - 1;
      counts := counts[lastStart := cnt];
      var entry := stack[depth];
      lastStart := entry.lastStart;
      cnt := entry.cnt;
      ScopeCloses(k, m, Now());
      match entry.state
      case Object => r := ObjectContinue();
      case Array => r := ArrayContinue();
      case Start =>
        if i + 1 < |indexes| {
          return Fail(InternalError);
        }
        return Done;
    }
  }

  /** The tokens after the root entry are the ones some tree derives. */
  ghost predicate Derivable(k: seq<Kind>) {
    k != [] && exists t :: k[1..] == Flatten(t)
  }

  lemma DerivableAccepted(k: seq<Kind>)
    ensures Derivable(k) <==> Accepts(k, 1)
  {
    if k != [] { AcceptsDerivable(k, 1); }
  }

  /** Accepts exactly the token sequences that derive a value, and counts the elements of every bracket. */
  method Validate(input: seq<byte>, structuralIndexes: seq<nat>) returns (r: Result<seq<nat>>)
    requires forall i :: 0 <= i < |structuralIndexes| ==> structuralIndexes[i] < |input|
    ensures r.Ok? <==> Derivable(Kinds(input, structuralIndexes))
    ensures r.Ok? <==> Accepts(Kinds(input, structuralIndexes), 1)
    ensures r.Ok? ==> CountsExact(Kinds(input, structuralIndexes), r.value)
  {
    var v := new Validator(input, structuralIndexes);
    var outcome := v.Begin();
    while outcome.Go?
      invariant v.input == input && v.indexes == structuralIndexes && v.k == Kinds(input, structuralIndexes)
      invariant outcome.Go? ==> v.InState()
      invariant outcome.Fail? ==> !Accepts(v.k, 1)
      invariant outcome.Done? ==> v.Valid() && Accepts(v.k, 1) && CountsExact(v.k, v.counts)
      decreases outcome.Go?, |structuralIndexes| - v.i
    {
      match v.state
      case ObjectKey => outcome := v.StateObjectKey();
      case ScopeEnd => outcome := v.StateScopeEnd();
      case MainArraySwitch => outcome := v.StateMainArraySwitch();
    }
    DerivableAccepted(v.k);
    match outcome
    case Fail(e) => r := Err(e);
    case Done => r := Ok(v.counts);
  }
}
