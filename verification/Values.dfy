/** JSON values, and what the derivation tree of a document stands for. */
module Values {
  import opened Bytes
  import opened Grammar
  import opened Strings
  import opened Tape
  import N = Numbers
  import S = Stage2

  /** An object is the list of its members in the order they were put in. */
  datatype Value =
    | Null
    | Bool(b: bool)
    | I64(i: int)
    | F64(f: real)
    | String(s: seq<byte>)
    | Array(elems: seq<Value>)
    | Object(members: seq<Member>)

  datatype Member = Member(key: seq<byte>, value: Value)

  function FromNumber(n: N.Number): Value {
    match n
    case I64(i) => I64(i)
    case F64(f) => F64(f)
  }

  /** The number at the start of `buf`, if the parser accepts it. */
  function NumberOf(buf: seq<byte>, negative: bool): Option<Value> {
    var p := if negative then 1 else 0;
    match N.LiteralAt(buf, p)
    case None => None
    case Some(l) =>
      if N.InRange(buf, p, negative, l) then Some(FromNumber(N.Meaning(buf, p, negative, l))) else None
  }

  /**
   `v` is the number whose integer part is `[p..a)` of `s`, whose fraction is `[a..b)` and whose exponent is `[b..e)`:
   an integer without fraction and with an exponent of zero, or the rational its digits and places make.
   */
  predicate StandsFor(v: Value, s: seq<byte>, p: nat, negative: bool, a: nat, b: nat, e: nat) {
    var digits: int, size: nat := N.Extend(N.Extend(0, s, p, a), s, a + 1, b), N.ExponentSize(s, b, e);
    var places, lower := if a < b then b - a - 1 else 0, b < e && At(s, b + 1) == MINUS;
    match v
    case I64(i) => a == b && size == 0 && i == if negative then -digits else digits
    case F64(x) =>
      (a < b || size != 0)
      && N.Amounts(x, negative, digits, if lower then 0 else size, places + if lower then size else 0)
    case _ => false
  }

  /** An accepted number stands for what its parts say, with the sign of its first byte. */
  lemma NumberExact(buf: seq<byte>, a: nat, b: nat, e: nat)
    requires buf != [] && NumberOf(buf, buf[0] == MINUS).Some?
    requires var p := if buf[0] == MINUS then 1 else 0;
             p <= a <= b <= e <= |buf| && N.IsInt(buf[p..a]) && N.IsFrac(buf[a..b]) && N.IsExp(buf[b..e])
             && IsTerminator(At(buf, e))
    ensures StandsFor(NumberOf(buf, buf[0] == MINUS).value, buf, if buf[0] == MINUS then 1 else 0, buf[0] == MINUS, a, b, e)
  {
    var p := if buf[0] == MINUS then 1 else 0;
    N.PartsAreRead(buf, p, a, b, e);
    MeaningStands(buf, p, buf[0] == MINUS, a, b, e);
  }

  lemma MeaningStands(s: seq<byte>, p: nat, negative: bool, a: nat, b: nat, e: nat)
    requires p <= a <= b <= e <= |s| && N.IsInt(s[p..a]) && N.IsFrac(s[a..b]) && N.IsExp(s[b..e])
    ensures StandsFor(FromNumber(N.Meaning(s, p, negative, N.Literal(a, b, e))), s, p, negative, a, b, e)
  {
    N.MeaningExact(s, p, negative, a, b, e);
  }

  /** The string whose opening quote is at position `p`. */
  function StringOf(s: seq<byte>, p: nat): Option<seq<byte>> {
    match Unescape(s, p + 1)
    case None => None
    case Some(u) => Some(u.bytes)
  }

  /** The number or atom at position `p`. */
  function ScalarOf(s: seq<byte>, p: nat): Option<Value>
    requires p <= |s|
  {
    var c := At(s, p);
    if c == LOWER_N then Some(Null)
    else if c == LOWER_T then Some(Bool(true))
    else if c == LOWER_F then Some(Bool(false))
    else NumberOf(s[p..], c == MINUS)
  }

  /** An input with its structural index and the token classes there. */
  datatype Doc = Doc(s: seq<byte>, indexes: seq<nat>, k: seq<Kind>) {
    /** Position of token `j`, or the end of the input. */
    function Pos(j: nat): nat {
      if j < |indexes| then indexes[j] else |s|
    }

    /** Token `j` has its class, lies behind the one before it, and a string there is closed in time. */
    ghost predicate TokenOk(j: nat)
      requires j < |indexes| == |k|
    {
      j >= 1 ==>
        && (if j == 1 then 0 <= Pos(j) else Pos(j - 1) < Pos(j)) && indexes[j] < |s|
        && k[j] == S.KindAt(s, indexes[j]) && (s[indexes[j]] == QUOTE ==> StringEnds(s, indexes, j))
    }

    ghost predicate TokensOk(n: nat)
      requires n <= |indexes| == |k|
    {
      n == 0 || (TokensOk(n - 1) && TokenOk(n - 1))
    }

    /** The index is a tape of the input with these token classes. */
    ghost predicate Ok() {
      1 <= |indexes| == |k| && forall n {:trigger TokensOk(n)} :: n == |indexes| ==> TokensOk(n)
    }

    /** What the tree of the value at token `i` stands for; none when a string or number in it is refused. */
    function Interp(t: Tree, i: nat): Option<Value>
      decreases t, 0
    {
      match t
      case StrTree =>
        (match StringOf(s, Pos(i))
         case None => None
         case Some(b) => Some(String(b)))
      case PrimTree => if Pos(i) <= |s| then ScalarOf(s, Pos(i)) else None
      case ArrayTree(es) =>
        if es == [] then Some(Array([])) else (match Elems(es, i + 1)
                                               case None => None
                                               case Some(vs) => Some(Array(vs)))
      case ObjectTree(ms) =>
        if ms == [] then Some(Object([])) else (match Members(ms, i + 1)
                                                case None => None
                                                case Some(vs) => Some(Object(vs)))
    }

    function Elems(es: seq<Tree>, i: nat): Option<seq<Value>>
      requires es != []
      decreases es, 1
    {
      match Interp(es[0], i)
      case None => None
      case Some(v) =>
        if |es| == 1 then Some([v])
        else match Elems(es[1..], i + |Flatten(es[0])| + 1)
          case None => None
          case Some(vs) => Some([v] + vs)
    }

    function Members(ms: seq<Tree>, i: nat): Option<seq<Member>>
      requires ms != []
      decreases ms, 1
    {
      match StringOf(s, Pos(i))
      case None => None
      case Some(key) =>
        match Interp(ms[0], i + 2)
        case None => None
        case Some(v) =>
          if |ms| == 1 then Some([Member(key, v)])
          else match Members(ms[1..], i + 2 + |Flatten(ms[0])| + 1)
            case None => None
            case Some(vs) => Some([Member(key, v)] + vs)
    }
  }

  /** One value in front of elements that are read. */
  lemma ElemsInFront(d: Doc, all: seq<Tree>, i: nat, v: Value, es: seq<Value>)
    requires |all| > 1 && d.Interp(all[0], i) == Some(v) && d.Elems(all[1..], i + |Flatten(all[0])| + 1) == Some(es)
    ensures d.Elems(all, i) == Some([v] + es)
  {}

  /** One name and value in front of members that are read. */
  lemma MembersInFront(d: Doc, all: seq<Tree>, i: nat, key: seq<byte>, v: Value, ms: seq<Member>)
    requires |all| > 1 && StringOf(d.s, d.Pos(i)) == Some(key) && d.Interp(all[0], i + 2) == Some(v)
    requires d.Members(all[1..], i + 2 + |Flatten(all[0])| + 1) == Some(ms)
    ensures d.Members(all, i) == Some([Member(key, v)] + ms)
  {}

  lemma {:induction false} TokensAreOk(d: Doc, n: nat)
    requires IsTape(d.s, d.indexes) && d.k == S.Kinds(d.s, d.indexes) && n <= |d.indexes|
    ensures d.TokensOk(n)
  {
    if n > 0 { TokensAreOk(d, n - 1); }
  }

  /** The index of stage 1 with its token classes is such a document. */
  lemma TapeIsOk(s: seq<byte>, indexes: seq<nat>)
    requires IsTape(s, indexes)
    ensures Doc(s, indexes, S.Kinds(s, indexes)).Ok()
  {
    TokensAreOk(Doc(s, indexes, S.Kinds(s, indexes)), |indexes|);
  }

  lemma {:induction false} TokenIsOk(d: Doc, j: nat, n: nat)
    requires j < n <= |d.indexes| == |d.k| && d.TokensOk(n)
    ensures d.TokenOk(j)
  {
    if j < n - 1 { TokenIsOk(d, j, n - 1); }
  }
}
