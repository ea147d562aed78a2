/**
 The one-byte-at-a-time reading of an input that stage 1 must agree with: which bytes are
 escaped, where strings are, and which positions start a token.
 */
module Scanner {
  import opened Bytes

  /** Length of the run of backslashes that ends just before position `i`. */
  function Run(s: seq<byte>, i: nat): nat
    requires i <= |s|
  {
    if i > 0 && s[i - 1] == BACKSLASH then 1 + Run(s, i - 1) else 0
  }

  predicate Escaped(s: seq<byte>, i: nat)
    requires i <= |s|
  {
    Run(s, i) % 2 == 1
  }

  predicate IsQuote(s: seq<byte>, i: nat)
    requires i < |s|
  {
    s[i] == QUOTE && !Escaped(s, i)
  }

  /** Whether a string is open after the first `i` bytes. */
  predicate InString(s: seq<byte>, i: nat)
    requires i <= |s|
  {
    i > 0 && InString(s, i - 1) != IsQuote(s, i - 1)
  }

  /** What a bare token may follow: the start of the input, a blank, a structural byte or a quote. */
  predicate Follows(s: seq<byte>, i: nat)
    requires i <= |s|
  {
    i == 0 || IsBlank(s[i - 1]) || IsStructural(s[i - 1]) || IsQuote(s, i - 1)
  }

  /** An opening quote, a structural byte outside strings, or the first byte of a bare token outside strings. */
  predicate IsToken(s: seq<byte>, i: nat)
    requires i < |s|
  {
    if InString(s, i + 1) then IsQuote(s, i)
    else !IsQuote(s, i) && (IsStructural(s[i]) || (!IsBlank(s[i]) && Follows(s, i)))
  }

  /** The positions below `n` at which tokens start, in increasing order. */
  function Tokens(s: seq<byte>, n: nat): (t: seq<nat>)
    requires n <= |s|
    ensures |t| <= n
    ensures forall k :: 0 <= k < |t| ==> t[k] < n
  {
    if n == 0 then []
    else Tokens(s, n - 1) + (if IsToken(s, n - 1) then [n - 1] else [])
  }

  /** A control byte somewhere inside a string. */
  predicate HasControlInString(s: seq<byte>, n: nat)
    requires n <= |s|
  {
    exists i :: 0 <= i < n && InString(s, i + 1) && s[i] <= 0x1f
  }

  /** `Tokens` is the increasing enumeration of exactly the token positions. */
  lemma {:induction false} TokensExact(s: seq<byte>, n: nat)
    requires n <= |s|
    ensures forall i, j :: 0 <= i < j < |Tokens(s, n)| ==> Tokens(s, n)[i] < Tokens(s, n)[j]
    ensures forall p :: 0 <= p < n ==> (IsToken(s, p) <==> p in Tokens(s, n))
  {
    if n > 0 { TokensExact(s, n - 1); }
  }

  /** Parity of the backslash run, one byte at a time. */
  lemma EscapedStep(s: seq<byte>, i: nat)
    requires i < |s|
    ensures Escaped(s, i + 1) <==> s[i] == BACKSLASH && !Escaped(s, i)
  {}

  /** What has been read so far does not depend on what follows. */
  lemma {:induction false} ScanOfPrefix(s: seq<byte>, t: seq<byte>, i: nat)
    requires i <= |s| && s <= t
    ensures Run(t, i) == Run(s, i)
    ensures InString(t, i) == InString(s, i)
    ensures Tokens(t, i) == Tokens(s, i)
  {
    if i > 0 {
      ScanOfPrefix(s, t, i - 1);
      assert s[i - 1] == t[i - 1];
      if i > 1 {
        ScanOfPrefix(s, t, i - 2);
        assert s[i - 2] == t[i - 2];
      }
    }
  }
}
