/** What the structural index of an input guarantees to the code that walks it. */
module Tape {
  import opened Bytes
  import opened Scanner
  import opened Stage1
  import opened Strings

  /** The string that opens at entry `k` is closed before the next entry. */
  ghost predicate StringEnds(s: seq<byte>, indexes: seq<nat>, k: nat)
    requires k < |indexes|
  {
    exists c :: Closing(s, indexes[k], c) && (k + 1 < |indexes| ==> c < indexes[k + 1])
  }

  /** Entry 0 is the root; the others increase, lie in the input, and every string is closed in time. */
  ghost predicate IsTape(s: seq<byte>, indexes: seq<nat>) {
    && |indexes| >= 1 && indexes[0] == 0
    && (forall k :: 1 <= k < |indexes| ==> indexes[k] < |s|)
    && (forall j, k :: 1 <= j < k < |indexes| ==> indexes[j] < indexes[k])
    && (forall k :: 1 <= k < |indexes| && s[indexes[k]] == QUOTE ==> StringEnds(s, indexes, k))
  }

  /** Where a string is open, an unescaped quote closes it if the input does not end inside a string. */
  lemma {:induction false} ClosingExists(s: seq<byte>, open: nat, j: nat) returns (c: nat)
    requires open < j <= |s| && s[open] == QUOTE && InString(s, j) && !InString(s, |s|)
    requires forall i :: open < i < j ==> !IsQuote(s, i)
    ensures j <= c && Closing(s, open, c)
    ensures forall i :: j <= i <= c ==> InString(s, i)
    ensures !InString(s, c + 1)
    decreases |s| - j
  {
    if IsQuote(s, j) { c := j; } else { c := ClosingExists(s, open, j + 1); }
  }

  /** A token that starts with a quote opens a string. */
  lemma QuoteTokenOpens(s: seq<byte>, p: nat)
    requires p < |s| && s[p] == QUOTE && IsToken(s, p)
    ensures IsQuote(s, p) && InString(s, p + 1)
  {
    if p > 0 { EscapedStep(s, p - 1); }
  }

  /** Stage 1 accepts only inputs whose index can be walked without further checks on strings. */
  lemma IndexIsTape(s: seq<byte>)
    requires StructuralIndex(s).Ok?
    ensures IsTape(s, StructuralIndex(s).value)
  {
    var t := Tokens(s, |s|);
    var indexes := [0] + t;
    TokensExact(s, |s|);
    forall k | 1 <= k < |indexes| && s[indexes[k]] == QUOTE ensures StringEnds(s, indexes, k) {
      var p := indexes[k];
      assert p == t[k - 1] && p in t;
      QuoteTokenOpens(s, p);
      var c := ClosingExists(s, p, p + 1);
      if k + 1 < |indexes| {
        var q := indexes[k + 1];
        assert q == t[k] && q in t && t[k - 1] < t[k];
        assert IsToken(s, q);
        assert c < q;
      }
    }
  }

  /** In an input stage 1 accepts, a string token reads as RFC 8259 has it exactly when its surrogates are paired. */
  lemma TokenStringIsRfc(s: seq<byte>, k: nat)
    requires StructuralIndex(s).Ok? && 1 <= k < |StructuralIndex(s).value|
    requires StructuralIndex(s).value[k] < |s| && s[StructuralIndex(s).value[k]] == QUOTE
    ensures var i := StructuralIndex(s).value[k] + 1;
            && (Regular(s, i) <==> SurrogatesPaired(s, i))
            && (RfcString(s, i).Some? <==> Unescape(s, i).Some? && SurrogatesPaired(s, i))
            && (RfcString(s, i).Some? ==> Unescape(s, i) == RfcString(s, i))
  {
    var t := Tokens(s, |s|);
    var p := StructuralIndex(s).value[k];
    TokensExact(s, |s|);
    assert p == t[k - 1] && p in t;
    QuoteTokenOpens(s, p);
    var c := ClosingExists(s, p, p + 1);
    forall j | p < j < c ensures s[j] >= 0x20 { assert InString(s, j + 1); }
    AfterQuote(s, p);
    RegularIsPaired(s, p + 1, c);
    StringIsRfc(s, p + 1);
  }
}
