# A verified model of simd-json

simd-json parses JSON in two stages and then walks what they leave behind.

* **Stage 1** reads the input in blocks of 64 bytes. With vector comparisons, 64-bit additions, a
  carry-less multiplication and table shuffles it finds the *structural index*: the position of every
  token. Four carries connect the blocks: an odd run of backslashes, an open string, whether a bare token
  may start, and unfinished UTF-8 sequences.
* **Stage 2** is a pushdown machine over that index. It checks punctuation, spells out the atoms, and
  records for every bracket how many elements it has.
* **The builders** (owned values, borrowed values, serde access) walk the index again. They look at no
  punctuation and check no bounds: that they are right follows from what the two stages established.
  Strings are unescaped in the input buffer on the way, 32 bytes at a time.
* **The number parser** works in a wrapping 64-bit word, with an eight-digit shortcut and two slow paths.
* **The writer** prints values compactly or indented and escapes strings block by block.

Every fast form is compared with a simple one, and the comparisons compose: the index of stage 1 is the one
of a byte-at-a-time scanner, stage 2 accepts exactly the token grammar of RFC 8259, the builders return what
the derivation tree stands for, and what the writer prints is read back as the same value. The whole parser
is compared with RFC 8259 byte by byte: which texts it accepts beyond the standard, which it refuses though
they are legal, and that it returns the standard's value for all others. Tables and constants that both sides of
such a comparison use are stated a second time in other terms: character classes by the characters themselves,
hex digits by what numbers they spell, floats by integer equations, escapes on output by the letters of the
standard, the layout of printed text by its brackets, and maps by which member of a name is the last.

## How the project is laid out

| file | contents |
|---|---|
| `Bytes`, `Masks`, `Simd` | bytes and their classes; machine words as bits; vector registers by lanes |
| `Scanner`, `Utf8` | the byte-at-a-time reading; well-formed UTF-8 (RFC 3629) and its automaton |
| `Utf8Check`, `Stage1` | the vector UTF-8 check; the structural index |
| `Grammar`, `Stage2` | token grammar and recursive descent; the pushdown machine |
| `Escapes`, `Strings`, `Tape`, `Deserializer` | escapes, whole strings, what the index guarantees, the cursor and the in-place unescaping |
| `Numbers`, `Swar`, `NumberParse` | number grammar and meaning; the eight-digit shortcut; the number parser |
| `Values`, `Walk`, `Documents` | what a document stands for; steps along the index; both stages together |
| `JsonText`, `TokenReading`, `Conformance` | JSON texts by RFC 8259, byte by byte; a document read token by token; where the two agree |
| `StringSafety` | when the strings of a parsed value are well-formed UTF-8 |
| `Owned`, `Borrowed`, `Serde` | the three traversals |
| `Generator`, `TokenText`, `RoundTrip`, `Layout` | the writer; how stage 1 sees printed text; printing and reading back; where printed text has line breaks and spaces |

Code that changes things step by step is a method or a class here too: the block functions of stage 1 return
their carries, the validator, the cursor, the accesses and the generator are classes, the input buffer and
the string buffer are arrays that are written to. Predicates such as `Stage1.UpTo`, `Stage2.Running`,
`Deserializing.Copied`, `Walk.InArray` and `Generator.Rebased` are the loop and run invariants.

## Where the code and the standards part

Of the inputs the parser accepts, exactly the strict ones are JSON texts (`Conformance.ParsedIsJson`): those
whose strings have all surrogates in pairs and in which no number or name is ended by a NUL. Of the JSON texts,
exactly those that are well-formed UTF-8 and whose numbers all fit are accepted (`Conformance.JsonIsParsed`).
Together: parser and standard agree on exactly the strict inputs that are accepted, which are exactly the JSON
texts in UTF-8 whose numbers fit, and on their values (`Conformance.AgreeExactly`). The ways to fall short, each
with an input:

* What stands behind a NUL that ends a number or name is not looked at: the terminator table includes 0, and
  stage 1 makes no token of a bare byte behind a bare byte. `1`, NUL, `a` is read as 1 (`Conformance.NulIgnored`).
* A lone low surrogate is read as if it were a character, and a high surrogate is joined to any escape of
  DC00 or above (`Strings.LoneSurrogateAccepted`, `Strings.JoinedAboveAccepted`; exactly when, `Strings.EscapeIsRfc`).
* The bytes a lone low surrogate leaves are not UTF-8, although they are handed out as `str`
  (`Strings.LoneSurrogateSpoils`). A parsed value is free of such bytes exactly when no string of the input has
  one (`StringSafety.ParsedStrings`).
* Some legal numbers are refused: exponents of more than three digits (`Numbers.LongExponentRefused`), integers
  with a zero exponent that take up 18 bytes or more (`Numbers.ZeroExponentRefused`), powers of ten beyond 308
  either way (`Numbers.LargePowerRefused`), and integer parts of twenty digits and more in which one of the
  wrapping additions carries out of the word (`Numbers.CarryRefused`). `Numbers.InRange` is the exact condition.

Besides:

* An input whose length is a multiple of 64 and that ends inside an unfinished UTF-8 sequence passes the
  UTF-8 check, since no later byte reveals it. `Stage1.Utf8Exact` says exactly when, by a test of the last
  three bytes and of what stands before them; a trailing C0 or C1 passes as well. No JSON text ends so, but the
  whole parser accepts such an input if it hides behind a NUL: `1`, NUL, 61 letters and C3
  (`Conformance.ParsedUtf8`, `Conformance.NulHidesUnfinished`).
* An object that repeats a key keeps both members in the owned and borrowed builders, which insert without
  looking, and only the last one through serde. The three agree exactly on values in which no object repeats a
  key (`Serde.LastWinsExact`); `{"a":1,"a":2}` is such a difference (`RoundTrip.RepeatedKeyLost`).
* Comments in src/lib.rs (lines 256 and 328) say that documents of 4 GB and more are refused. They are not: an
  empty array with 2^32 + 62 spaces behind it is accepted, and rightly (`Documents.LargeArrayAccepted`). Stage 1
  stores positions in 32 bits and compares the last one with the length in 32 bits. An input is *addressed*
  (`Stage1.Addressed`) if its last token lies below 4 GB and not behind the length in 32 bits, as every input
  below 4 GB is (`Stage1.SmallIndexStored`). `Stage1.StoredExact` says exactly when the result is the structural
  index; of addressed inputs exactly the valid ones are accepted (`Documents.AddressedStored`). From 4 GB on a document may be refused because its length wraps around, in the
  branch for an index past the input (`Documents.LargeEndRefused`: an empty array with 2^32 - 2 spaces behind
  it), or because a position does (`Documents.LargeArrayRefused`: the same behind 2^32 - 1 spaces), and it may
  be accepted with other tokens than its own (`Documents.LargeArrayMisread`: of `["]",` and, 4 GB behind the
  string, `7]`, the string is found twice).
* The indentation depth and its product with the width are 16-bit; they wrap around in release builds, as
  does the unchecked addition in the eight-digit test and the negation of the smallest integer.

## Model

| member | source | states |
|---|---|---|
| Masks.AddIsAddition | src/stage1.rs:100-107 | the ripple-carry sum with its carry out is the sum of the two words as numbers |
| Masks.Sub1IsSubtraction | src/stage1.rs:264-286 | the bit form of `x - 1` is subtraction of one, wrapping at zero |
| Masks.ClearLowest | src/stage1.rs:264-286 | `x & (x - 1)` clears the lowest set bit and nothing else |
| Masks.PositionsTail | src/stage1.rs:264-286 | clearing the lowest bit takes exactly the first entry off the list of set positions |
| Masks.HammingCounts | src/stage1.rs:252-255 | the bit count is the number of set positions |
| Masks.ProductWithOnes | src/stage1.rs:148-151 | the carry-less product with all ones is, bit by bit, the inclusive prefix parity |
| Masks.FirstBefore | src/lib.rs:248-265 | `(b - 1) & q` is nonzero exactly when the first set bit of `q` comes before the first of `b` |
| Simd.FillInput | src/stage1.rs:18-26 | the two registers hold the 64 bytes of the block in order |
| Simd.BitOrDisjoint | src/charutils.rs:61-61 | an OR of numbers without a common bit position is their sum |
| Bytes.ClassesSpelled | src/charutils.rs:1-31 | structural bytes, white space, digits and terminators are those characters and no others |
| Bytes.CharactersSpelled | src/stage2.rs:7-68 | the named bytes and the three names are the characters of RFC 8259 |
| Scanner.TokensExact | src/stage1.rs:313-346 | the reference index lists the token positions, all of them, each once, in increasing order |
| Scanner.EscapedStep | src/stage1.rs:91-120 | escaping by run parity obeys the one-byte rule: a byte is escaped when the one before it is an unescaped backslash |
| Scanner.ScanOfPrefix | src/stage1.rs:353-366 | what the scanner has found does not depend on later bytes |
| Utf8.AutomatonRecognises | src/utf8check.rs:4-25 | the automaton ends in its start state exactly on UTF-8 well-formed by section 4 of RFC 3629 |
| Utf8Check.LaneAgrees | src/utf8check.rs:87-99 | one lane, given its predecessor byte and the carried count, reports an error exactly when the automaton fails there |
| Utf8Check.CheckSmallerThan0xF4 | src/utf8check.rs:39-47 | adds an error exactly in lanes above F4 and keeps every earlier one |
| Utf8Check.CheckContinuations | src/utf8check.rs:87-99 | adds an error exactly where the carried count and the announced length disagree about a continuation |
| Utf8Check.CheckFirstContinuationMax | src/utf8check.rs:105-131 | adds an error exactly behind ED and F4 when the byte is above the maximum |
| Utf8Check.CheckOverlong | src/utf8check.rs:140-229 | adds an error exactly where leading byte and next byte are both below the minimum of the tables |
| Utf8Check.CarriesAreCounts | src/utf8check.rs:71-84 | two saturating shifted additions give each lane the length it announces plus what is carried into it |
| Utf8Check.CarryMatches | src/utf8check.rs:71-84 | the carried count exceeds the announced length exactly where a continuation byte is due, also in lane 0, where the carry is counted twice |
| Utf8Check.LookedUpLengths | src/utf8check.rs:50-68 | the nibble shuffle gives every byte the sequence length it announces |
| Utf8Check.HighNibblesLanes | src/utf8check.rs:251-255 | the 16-bit shift and mask give every lane its own high nibble |
| Utf8Check.RegisterAgrees | src/utf8check.rs:260-288 | no lane reports an error exactly when the automaton survives the 32 bytes, and what is left behind links to the next register |
| Utf8Check.AvxCheckUtf8Bytes | src/utf8check.rs:260-288 | the error register stays zero exactly while the stream up to here has not failed |
| Utf8Check.CheckUtf8 | src/stage1.rs:29-52 | the same for a 64-byte block, also through the ASCII shortcut, which leaves the previous register as it was |
| Stage1.CmpMaskAgainstInput | src/stage1.rs:57-66 | bit `i` is set exactly when byte `i` equals the given one |
| Stage1.UnsignedLteqAgainstInput | src/stage1.rs:70-79 | bit `i` is set exactly when byte `i` is at most the given one, unsigned |
| Stage1.RunCarry | src/stage1.rs:98-113 | adding the starts of runs carries out of exactly the runs they start, wherever those end |
| Stage1.FindOddBackslashSequences | src/stage1.rs:91-120 | bit `i` is set exactly when byte `i` is no backslash and the run of backslashes before it, across any number of blocks, is odd; the carry is that parity at the block end |
| Stage1.FindQuoteMaskAndBits | src/stage1.rs:134-163 | quote bits are the unescaped quotes, the mask covers strings from the opening quote to before the closing one, errors are control bytes in strings |
| Stage1.FindWhitespaceAndStructurals | src/stage1.rs:166-242 | the shuffled class bits mark exactly the blanks and exactly the structural bytes |
| Stage1.FinalizeStructurals | src/stage1.rs:313-346 | the result marks exactly the token positions of the scanner, and the carry says whether a bare token may start the next block |
| Stage1.LowestTaken | src/stage1.rs:264-286 | trailing zeros and clearing take out exactly the first entry, and give 64 for an empty word |
| Stage1.FlattenBits | src/stage1.rs:251-304 | appends the positions of the set bits, in 32 bits, in increasing order and nothing else, although eight are stored at a time with wrapping offsets |
| Stage1.ProcessBlock | src/stage1.rs:369-426 | one block takes the state for the input so far to the state for 64 bytes more |
| Stage1.ScanBlocks | src/stage1.rs:369-429 | the block loop takes the initial state to the state behind the last full block |
| Stage1.PaddedAgrees | src/stage1.rs:431-481 | the spaces of the last block add no token, quote or control byte and only bring out an unfinished sequence |
| Stage1.FindStructuralBits | src/stage1.rs:353-501 | the result, Ok or error kind, is the index of the one-byte-at-a-time reading with its positions in 32 bits, for every input; where those are addressed, as below 4 GB, it is that very index |
| Stage1.Finish | src/stage1.rs:475-500 | the checks at the end, in their order, with the test of the last stored entry |
| Stage1.WrappedExact | src/stage1.rs:251-304 | in 32 bits the positions stay what they are exactly when the last one lies below 4 GB |
| Stage1.StoredExact | src/stage1.rs:475-500 | what is returned is the structural index, or the error it calls for, exactly when the end test passes and either an error follows anyway or the last token lies below 4 GB |
| Stage1.SmallIndexStored | src/stage1.rs:486-488 | so it is below 4 GB, where the branch for an index past the input is never taken |
| Stage1.ErrorKinds | src/stage1.rs:475-500 | each error at an input |
| Stage1.EndWraps | src/stage1.rs:486-488 | an input of 4 GB for which that branch is taken |
| Stage1.LargeIndexWraps | src/stage1.rs:251-304 | an input of more than 4 GB that is accepted with a position that is not that of its token |
| Stage1.MisreadIndex | src/stage1.rs:251-304 | an input with two tokens stored at the positions of others |
| Stage1.Utf8Exact | src/stage1.rs:494-500 | what passes the UTF-8 check is the well-formed input, unless the last block is full and the input ends unfinished by its last three bytes: an equivalence |
| Stage1.UnfinishedExact | src/stage1.rs:494-500 | the test of the last three bytes, with a well-formed rest before them, says exactly when a sequence is left open |
| Stage1.Utf8AfterAscii | src/stage1.rs:494-500 | for inputs that end in an ASCII byte, accepted and well-formed are the same |
| Stage1.UnfinishedTailAccepted | src/stage1.rs:494-500 | a concrete input of 64 bytes that is accepted though not well-formed |
| Grammar.AcceptsDerivable | src/stage2.rs:84-451 | recursive descent accepts exactly the token sequences some derivation tree has, and the tree is the only one |
| Grammar.ValueSpells | src/stage2.rs:84-451 | whatever is read is spelled by the tree that is returned |
| Grammar.ValueReads | src/stage2.rs:84-451 | whatever a tree spells is read as that tree |
| Stage2.TrueAtom | src/stage2.rs:7-25 | the masked 64-bit comparison accepts exactly `true` with a terminator behind it |
| Stage2.FalseAtom | src/stage2.rs:28-50 | the same for `false` |
| Stage2.NullAtom | src/stage2.rs:53-68 | the same for `null` |
| Stage2.ScalarKind | src/stage2.rs:228-292 | the branches on the first byte accept exactly the tokens that are strings, numbers by their first byte, or atoms in full |
| Stage2.Validator.constructor | src/stage2.rs:85-104 | the machine starts with nothing open and with vectors of arbitrary contents |
| Stage2.Validator.UpdateChar | src/stage2.rs:106-112 | goes on by one token, or fails exactly at the end of the index |
| Stage2.Validator.Push | src/stage2.rs:207-214 | puts start and count of the enclosing bracket on the stack and starts a count of one; it stays within the preallocated stack |
| Stage2.Validator.Begin | src/stage2.rs:204-306 | the start state: refuses, accepts a lone scalar, or enters the first bracket with the run invariant |
| Stage2.Validator.ArrayContinue | src/stage2.rs:125-142 | after an element: comma or bracket keep the invariant, anything else means that no tree derives the document |
| Stage2.Validator.ObjectContinue | src/stage2.rs:144-165 | after a member, the same, with a name behind the comma |
| Stage2.Validator.ArrayBegin | src/stage2.rs:167-176 | behind an opening bracket: empty with count 0, or a first element with count 1 |
| Stage2.Validator.ObjectBegin | src/stage2.rs:178-192 | behind an opening brace: empty, a first name, or refused |
| Stage2.Validator.StateObjectKey | src/stage2.rs:312-366 | a name needs a colon and a value; every step consumes an index or ends the run |
| Stage2.Validator.StateScopeEnd | src/stage2.rs:368-395 | writes the count, restores the enclosing bracket from the stack, and ends the run at the start marker; depth is never 0 here |
| Stage2.Validator.StateMainArraySwitch | src/stage2.rs:398-448 | an array element: the same invariant |
| Stage2.ScopeCloses | src/stage2.rs:368-395 | the stack entry is the bracket that encloses the one just closed; at the marker the whole document is read exactly when no token is left |
| Stage2.NextElement | src/stage2.rs:125-165 | a comma leaves the same rest to be read with one element more counted |
| Stage2.BracketFails | src/stage2.rs:84-451 | if what is inside cannot be read, the whole document has no derivation |
| Stage2.Validate | src/stage2.rs:84-451 | Ok exactly when some tree derives the tokens behind the root entry, and then every bracket has its number of elements or members |
| Escapes.HexSpelled | src/charutils.rs:33-63 | four bytes are read as a number exactly if they are its digits in base 16, each in upper or lower case |
| Escapes.HexChecked | src/charutils.rs:51-63 | four hex digits give their number; any other byte among them gives at least FFFFF000 |
| Escapes.EncodeExact | src/charutils.rs:78-107 | the bytes decode to the code point, and are one well-formed UTF-8 sequence exactly when it is no surrogate |
| Escapes.CodepointToUtf8 | src/charutils.rs:78-107 | writes exactly those bytes at the given place and returns their number, none above 10FFFF |
| Escapes.JoinedBound | src/stringparse.rs:60-71 | a surrogate pair joins to the code point of the standard, and nothing that is joined leaves the code space |
| Escapes.JoinedExact | src/stringparse.rs:60-71 | whatever is joined, below its offset, is the ten low bits of the second unit under the bits of either above them |
| Escapes.RegistersTell | src/stringparse.rs:43-72 | the tests on the registers tell exactly single, joined and illegal escapes apart |
| Escapes.HandleUnicodeCodepoint | src/stringparse.rs:31-75 | writes what the escape stands for and says how much was written and read; fails or writes nothing exactly for an illegal one |
| Escapes.EscapeBounds | src/lib.rs:349-385 | an escape is longer than what it stands for, so output never overtakes input |
| Strings.EndIsClosing | src/lib.rs:248-265 | consuming escapes from left to right stops at the very quote run parity closes the string at, and fails exactly when an escape before it is illegal |
| Strings.UnescapeOfSuffix | src/lib.rs:207-394 | reading a string looks at nothing before it |
| Strings.UnescapePlain | src/lib.rs:207-285 | stretches without quote and backslash stand for themselves |
| Strings.EscapeIsRfc | src/stringparse.rs:31-75 | the accepted escapes are those of section 7 of RFC 8259 exactly when surrogates are paired |
| Strings.StringIsRfc | src/lib.rs:207-394 | a string reads as in section 7 of RFC 8259 exactly when it has no control byte and no unpaired surrogate |
| Strings.LoneSurrogateAccepted | src/stringparse.rs:43-75 | a concrete escape that is accepted though RFC 8259 forbids it |
| Strings.JoinedAboveAccepted | src/stringparse.rs:53-71 | a concrete high surrogate joined to an escape above the surrogates, which RFC 8259 forbids, and the character it is read as |
| Strings.LoneLow | src/stringparse.rs:43-75 | every lone low surrogate is |
| Strings.UpperHexRead | src/charutils.rs:51-63 | a concrete escape with an upper-case digit, read as its character by the parser and by RFC 8259 |
| Strings.UnescapedWellFormed | src/lib.rs:270-276 | the unescaped bytes are well-formed UTF-8, as their use as `str` needs, exactly when no low surrogate stands alone in the string |
| Strings.LoneSurrogateSpoils | src/stringparse.rs:43-75 | a concrete string that is read as bytes which are not UTF-8 |
| StringSafety.ParsedStrings | src/lib.rs:270-276 | all strings and keys of the value that is returned are well-formed UTF-8 exactly when no string of the input has a lone low surrogate |
| Tape.IndexIsTape | src/lib.rs:129-161 | an index that stage 1 returns increases, stays in the input, and closes every string before the next token |
| Tape.TokenStringIsRfc | src/lib.rs:207-394 | for strings of an accepted index the reading is that of RFC 8259 exactly when surrogates are paired |
| Deserializing.FindFirst | src/lib.rs:248-285 | the two mask tests find the first quote or backslash of 32 bytes, or neither |
| Deserializing.Deserializer.constructor | src/lib.rs:161-172 | the cursor starts at the root entry with a string buffer of its own |
| Deserializing.Deserializer.Skip | src/lib.rs:176-179 | the cursor goes on by one index |
| Deserializing.Deserializer.Next | src/lib.rs:192-199 | the same, and the byte there |
| Deserializing.Deserializer.NextChecked | src/serde.rs:58-69 | the same, with an error exactly at the end |
| Deserializing.Deserializer.ScanPlain | src/lib.rs:223-286 | stops at the first quote or backslash of the string, wherever blocks end, and writes nothing |
| Deserializing.Deserializer.ReadEscape | src/lib.rs:345-385 | reads one escape and appends what it stands for; fails exactly for an illegal one |
| Deserializing.Deserializer.CopyRound | src/lib.rs:291-392 | one round keeps output plus rest equal to the whole string |
| Deserializing.Deserializer.WriteBack | src/lib.rs:333-336 | the buffer replaces as many bytes of the input and no others |
| Deserializing.Deserializer.ParseStr | src/lib.rs:207-394 | the slice holds what the string stands for, only bytes between the quotes change, and it fails, changing nothing, exactly when an escape is illegal |
| Deserializing.Deserializer.ParseNumber | src/lib.rs:412-426 | accepts at the cursor exactly the numbers in range, with their meaning |
| Numbers.LiteralExact | src/numberparse.rs:343-500 | a literal is read up to position `e` exactly when those bytes are a number of section 6 of RFC 8259 and a terminator follows |
| Numbers.PlainIntegerExact | src/numberparse.rs:488-494 | a plain integer is accepted exactly when it fits 64 bits with sign, and stands for itself |
| Numbers.SignsSpelled | src/numberparse.rs:422-437 | the exponent letters are `e` and `E`, the signs `+` and `-` |
| Numbers.Pow10Up | src/numberparse.rs:473-487 | powers of ten upwards are the integer powers |
| Numbers.Pow10Down | src/numberparse.rs:473-487 | downwards they are the inverses of the integer powers |
| Numbers.MeaningExact | src/numberparse.rs:343-500 | by its parts, a number stands for an integer exactly without fraction and with an exponent of zero; otherwise value times integer power of ten is digits times integer power of ten, signs as written |
| Numbers.LiteralSame | src/numberparse.rs:343-500 | a number is judged and valued by its own bytes, whatever terminator follows |
| Values.NumberExact | src/numberparse.rs:343-500 | every number a builder is given is that integer or that rational, with the sign of its first byte |
| JsonText.NumberTextExact | src/numberparse.rs:343-500 | so is the number RFC 8259 reads there |
| Numbers.AcceptedIsNumber | src/numberparse.rs:343-500 | whatever is accepted is a number of the grammar with its sign, followed by a terminator |
| Numbers.LongExponentRefused | src/numberparse.rs:460-463 | a concrete legal number that is refused |
| Numbers.ZeroExponentRefused | src/numberparse.rs:488-494 | another, an integer with a zero exponent |
| Numbers.LargePowerRefused | src/numberparse.rs:479-482 | another, a power of ten beyond the table |
| Numbers.CarryRefused | src/numberparse.rs:373-377 | another, whose twentieth digit carries out of the word |
| Numbers.NoCarryAccepted | src/numberparse.rs:370-382 | one less in the twentieth digit and it is accepted |
| Numbers.ExponentLimit | src/numberparse.rs:466-487 | which exponents are accepted, for all numbers other than zero with up to 19 integer digits: up to 308 either way, counted from the last digit or from the period |
| Numbers.ZeroExponentLimit | src/numberparse.rs:488-494 | an integer with a zero exponent is accepted exactly below 18 bytes |
| Numbers.ZeroAccepted | src/numberparse.rs:473-477 | zero is accepted with the largest exponent that has three digits |
| Numbers.ShortNoCarry | src/numberparse.rs:370-381 | up to 19 digits no addition carries out of the word |
| Numbers.Pow10Shift | src/numberparse.rs:418-418 | digits behind the period and a lower power of ten cancel out |
| Swar.AddWordsAdds | src/numberparse.rs:114-116 | the bytewise sum with carries is addition of the words |
| Swar.EightDigitsFast | src/numberparse.rs:104-117 | the test on the word passes exactly when all eight bytes are digits |
| Swar.WordIsLoad | src/numberparse.rs:107-107 | the word of eight bytes is the little-endian number of its bytes |
| Swar.EightDigitsValue | src/numberparse.rs:136-156 | on eight digits the saturating multiply-add tree gives their decimal value |
| NumberParse.WordStep | src/numberparse.rs:370-417 | a wrapping step keeps the word equal to the digits modulo 2^64 |
| NumberParse.ReadInt | src/numberparse.rs:348-382 | the word holds the integer digits; it fails exactly on a bad first digit, a digit behind a zero, or a carry |
| NumberParse.ReadFraction | src/numberparse.rs:399-417 | with or without the eight-digit shortcut, word and position are the same: all digits, modulo 2^64 |
| NumberParse.ReadFrac | src/numberparse.rs:384-421 | a period needs a digit behind it; the word goes on with the fraction |
| NumberParse.ReadExponent | src/numberparse.rs:438-463 | accepts up to the given number of digits, with their value |
| NumberParse.ReadExp | src/numberparse.rs:422-465 | the sign and the value of the exponent |
| NumberParse.ParseLargeInteger | src/numberparse.rs:289-338 | accepts exactly the plain integers in the signed 64-bit range that a terminator follows, with their value |
| NumberParse.ReadFractionWord | src/numberparse.rs:189-209 | up to 17 fraction digits and their weight fit the word, without overflow |
| NumberParse.ReadLongFraction | src/numberparse.rs:189-219 | the fraction, word part and rational rest together, is the value of all its digits |
| NumberParse.ParseFloat | src/numberparse.rs:170-278 | the careful path gives the exact magnitude: mantissa times the power of ten, and says exactly when it accepts; table indexes are in range |
| NumberParse.WordIsMantissa | src/numberparse.rs:466-487 | below 19 digits the wrapping word is the mantissa itself |
| NumberParse.ShortFloat | src/numberparse.rs:473-487 | mantissa times a table power, refused exactly when the exponent leaves the table |
| NumberParse.Conclude | src/numberparse.rs:466-499 | the choice between the three routes and the terminator check accept exactly the numbers in range |
| NumberParse.ParseNumberInt | src/numberparse.rs:343-500 | accepts exactly the literals in range, each with the integer or exact rational it stands for |
| Values.TapeIsOk | src/lib.rs:155-159 | the index of stage 1 with its token classes is a document the builders can walk |
| Walk.StringIsDone | src/lib.rs:333-341 | reading a string changes nothing outside its own token, so all later tokens are as they were read in |
| Walk.ReadString | src/value/owned.rs:199-199 | at a string token of a valid document the slice shows the string, and nothing outside the token changes |
| Walk.ReadNumber | src/value/owned.rs:203-204 | at a number token, the number or an error, as the literal there demands |
| Walk.ElemStep | src/value/owned.rs:220-223 | the value of a list is its first element followed by the value of the rest behind the comma |
| Walk.CountIs | src/lib.rs:202-204 | the recorded count is the number of children of the tree |
| Walk.FirstByte | src/value/owned.rs:198-207 | in a valid document the first byte tells the kind of value, so the last branch is dead |
| Documents.FromSlice | src/lib.rs:129-173 | Ok exactly when stage 1 accepts and stage 2 accepts the tokens at the stored positions, with a cursor on the root entry, those positions and the counts of their brackets; of an addressed input, exactly when both accept the document, which the cursor then can walk |
| Documents.AddressedStored | src/lib.rs:139-159 | where the stored positions are those of the tokens, exactly the valid documents are accepted |
| Documents.FollowedExact | src/lib.rs:139-159 | the builders' condition: no cursor is handed out, or its positions are those of the tokens |
| Documents.LargeArrayAccepted | src/lib.rs:254-256 | a legal text of more than 4 GB that is accepted |
| Documents.LargeEndRefused | src/stage1.rs:486-488 | a legal text of 4 GB that is refused for its length |
| Documents.LargeArrayRefused | src/lib.rs:129-159 | a legal text of more than 4 GB that is refused for the position of its bracket |
| Documents.LargeArrayMisread | src/lib.rs:129-159 | a legal text of more than 4 GB that is accepted with another token in place of one of its own |
| Documents.RootDerives | src/value/owned.rs:182-194 | the one tree covers all tokens up to the end of the index |
| Documents.Start | src/value/owned.rs:20-23 | a builder gets a cursor in front of the whole tree of an addressed input, or none when there is no value |
| Conformance.NumberSeen | src/numberparse.rs:343-500 | a number is accepted exactly when the longest RFC 8259 number there is ended by a terminator and fits |
| Conformance.NameSeen | src/stage2.rs:228-292 | the same for `true`, `false` and `null` |
| Conformance.StringAgrees | src/lib.rs:207-394 | reading a string by its bytes and by its token agree, unless it breaks the standard |
| Conformance.ValueAgrees | src/lib.rs:129-173 | the same for a whole value, token for token, whichever of the two readings fails |
| Conformance.ParsedIsJson | src/lib.rs:129-173 | of what is accepted, exactly the strict texts are JSON texts; they are well-formed UTF-8 and have the value that is returned |
| Conformance.JsonIsParsed | src/lib.rs:129-173 | of the JSON texts, exactly those that are well-formed UTF-8 and whose numbers all fit are accepted, with their value |
| Conformance.AgreeExactly | src/lib.rs:129-173 | what is accepted and strict is exactly what is JSON, UTF-8 and fits, and both readings have the same value |
| Conformance.JsonUtf8 | src/stage1.rs:494-500 | for JSON texts the UTF-8 check has no exception |
| Conformance.ParsedUtf8 | src/stage1.rs:494-500 | an accepted input is well-formed UTF-8 exactly unless it fills its last block and ends unfinished |
| Conformance.StrictInAccepted | src/stage1.rs:134-163 | in what stage 1 accepts, strict means: surrogates in pairs, and no NUL behind a number or name |
| Conformance.BehindNul | src/charutils.rs:12-31 | whatever bare bytes stand behind a number and a NUL, the number is the value |
| Conformance.NulIgnored | src/charutils.rs:12-31 | a concrete input that is accepted though bytes behind a NUL are no JSON |
| Conformance.NulHidesUnfinished | src/stage1.rs:494-500 | a concrete input of 64 bytes that the whole parser accepts though it is not UTF-8 |
| Owned.OwnedDeserializer.ParseValue | src/value/owned.rs:197-209 | returns what the tree stands for with the cursor on its last token; fails exactly when a string or number in it is refused |
| Owned.OwnedDeserializer.ParseArray | src/value/owned.rs:212-225 | one child per counted element, and the cursor on the bracket |
| Owned.OwnedDeserializer.ParseMap | src/value/owned.rs:228-252 | one member per counted pair in order, and the cursor on the brace |
| Owned.OwnedDeserializer.ParseKey | src/value/owned.rs:241-246 | the name, with the cursor on the colon |
| Owned.ToValue | src/value/owned.rs:20-23 | Ok exactly when the input is addressed, valid and all its strings and numbers are accepted, with the value it stands for; below 4 GB every input is addressed |
| Borrowed.ResolveShape | src/value/borrowed.rs:26-34 | what a borrowed value shows is built like itself, with the same scalars |
| Borrowed.ResolveStable | src/value/borrowed.rs:212-252 | writing behind a borrowed value does not change what it shows |
| Borrowed.ElementDone | src/value/borrowed.rs:220-223 | building one more element leaves all earlier slices showing what they did |
| Borrowed.MemberDone | src/value/borrowed.rs:240-250 | the same for members with their names |
| Borrowed.BorrowDeserializer.ParseValue | src/value/borrowed.rs:197-209 | what is returned shows the value of the tree in the buffer as it is then, and lies before the next token |
| Borrowed.BorrowDeserializer.ParseArray | src/value/borrowed.rs:212-225 | the same for arrays |
| Borrowed.BorrowDeserializer.ParseMap | src/value/borrowed.rs:228-252 | the same for objects |
| Borrowed.ToValue | src/value/borrowed.rs:20-23 | accepts what the owned builder accepts, and in the final buffer shows the same value |
| Serde.LastWinsExact | src/serde/value/owned/de.rs:597-602 | inserting keeps the value as it is exactly when no object in it repeats a key |
| Serde.InsertAllExact | src/serde/value/owned/de.rs:597-602 | a member is in the map in the end exactly if it is the last of its name |
| Serde.KeysKept | src/serde/value/owned/de.rs:597-602 | the map has exactly the names that were inserted |
| Serde.LastWinsReduces | src/serde/value/owned/de.rs:597-602 | at every depth, every object keeps exactly the last member of each of its names, and everything else stays |
| Serde.TwoInserted | src/serde/value/owned/de.rs:597-602 | of two members under one key the second is what stays |
| Serde.CommaSeparated.constructor | src/serde/de.rs:334-340 | takes the count of the bracket at the cursor |
| Serde.CommaSeparated.NextElement | src/serde/de.rs:349-365 | hands out the elements in order; after the last one the cursor is on the closing bracket |
| Serde.CommaSeparated.ElementHere | src/serde/de.rs:349-365 | the element behind a comma or the opening bracket; on an error the whole array is refused |
| Serde.CommaSeparated.NextKey | src/serde/de.rs:378-392 | hands out the next name; after the last member the cursor is on the closing brace, also when there was none |
| Serde.CommaSeparated.NextValue | src/serde/de.rs:395-405 | the value of that name with the cursor behind it; on an error the cursor is still inside the index |
| Serde.CommaSeparated.ValueHere | src/serde/de.rs:395-405 | the value behind the colon; on an error the whole object is refused |
| Serde.DeserializeString | src/serde/de.rs:85-98 | the string behind the cursor; the test for its quote never fails |
| Serde.VisitSeq | src/serde/value/owned/de.rs:606-617 | draining the access gives the array the tree stands for, cursor on its bracket |
| Serde.VisitMap | src/serde/value/owned/de.rs:591-603 | draining the access gives the object with the last of the members of each name, cursor on its brace |
| Serde.DeserializeAny | src/serde/de.rs:13-38 | any value; the cursor ends on its last token |
| Serde.FromSlice | src/serde.rs:20-27 | the value of the owned builder with exactly the last member of every name in every object, and that very value exactly when no object in it repeats a key |
| Generator.QuoteBitsExact | src/value/generator.rs:113-128 | the vector test marks exactly the bytes with an entry in the table |
| Generator.PiecesRebased | src/value/generator.rs:138-140 | cutting the string off behind an escape loses, repeats and reorders nothing |
| Generator.NoControlWritten | src/value/generator.rs:29-47 | nothing below a space is ever written inside a string |
| TokenText.EscapeForms | src/value/generator.rs:29-47 | a byte is written by the letter RFC 8259 has for it, another control byte in six characters with lower-case digits, any other byte as it is |
| Generator.Generator.WriteStringComplex | src/value/generator.rs:76-91 | appends the escapes of all bytes of the string |
| Generator.Generator.WriteBlocks | src/value/generator.rs:109-180 | a block loop, of 32 or 16 bytes, writes a prefix of the string and leaves less than a block, all plain up to the position reached |
| Generator.Generator.WriteString | src/value/generator.rs:93-191 | the three tiers together append the quoted concatenation of the escapes of all bytes |
| Generator.Generator.NewLine | src/value/generator.rs:302-308 | a line break and as many spaces as the 16-bit product says |
| Generator.Generator.Indent | src/value/generator.rs:310-312 | one level deeper, wrapping |
| Generator.Generator.Dedent | src/value/generator.rs:314-316 | one level up, undoing the last indent |
| Generator.Generator.WriteObject | src/value/owned/serialize.rs:50-76 | appends the text of the object and comes back to the same depth |
| Generator.Generator.WriteArray | src/value/owned/serialize.rs:86-108 | the same for arrays |
| Generator.Generator.WriteJson | src/value/owned/serialize.rs:79-112 | appends the text of the value at the current depth, which does not change |
| TokenText.StringText | src/value/generator.rs:93-191 | a written string is one token for stage 1 and is read back as the string |
| TokenText.IntegerText | src/value/generator.rs:201-204 | a written integer is one token and is read back as the integer |
| TokenText.DecimalExact | src/value/generator.rs:201-204 | an integer is written in the digits of its absolute value without leading zeros, behind its sign |
| TokenText.NumberStands | src/value/generator.rs:194-198 | the text of a float that reads back as it is one token wherever a terminator follows, and reads back there |
| TokenText.PiecesReadBack | src/value/generator.rs:76-91 | reading the escapes of a string one after the other gives its bytes back |
| RoundTrip.ValueText | src/value/owned/serialize.rs:79-112 | the text of a value holds exactly the tokens of its tree, and they stand for the value |
| RoundTrip.PrintWellFormed | src/value/generator.rs:221-225 | printed text is well-formed UTF-8, as its use as a `String` needs |
| Layout.PrintIsLaid | src/value/owned/serialize.rs:50-112 | what stands between any two bytes of printed text outside strings: a line break behind opening brackets and commas and before closing brackets, a space behind colons, else nothing; in the compact style nothing |
| Layout.LineIndented | src/value/generator.rs:302-316 | behind every line feed stand as many spaces as width times depth, a closing bracket counted as closed, and then no blank; in 16 bits, which is the product while it fits |
| Layout.ColonHasOneSpace | src/value/generator.rs:297-300 | in the indenting style exactly one space follows a colon |
| Layout.CompactHasNoBlanks | src/value/generator.rs:55-74 | in the compact style there is no blank outside strings |
| RoundTrip.PrintThenParse | src/lib.rs:1293-1299 | the text of every value with 64-bit integers, UTF-8 strings and floats whose text reads back as them, compact or indented at any depth and width, parses to the same value |
| RoundTrip.WriteThenOwn | src/lib.rs:1293-1299 | what the writer writes, the owned builder turns into Ok of the same value, or an error if the text is not addressed |
| RoundTrip.WriteThenBorrow | src/lib.rs:1293-1299 | the borrowed builder returns what shows the value in its buffer, on the same condition |
| RoundTrip.WriteThenDeserialize | src/lib.rs:1293-1299 | serde returns the value with the last of each repeated key, and so the value exactly when no object in it repeats a key, on the same condition |
| RoundTrip.RepeatedKeyLost | src/serde/value/owned/de.rs:597-602 | a concrete text that the builders and serde read differently |

## Left out

- Floating point: a float is the exact rational mantissa times a power of ten; rounding, the contents of `POWER_OF_TEN` and what `ryu` prints are not modelled. How a float is printed is a parameter of the generator: the round trip is for floats whose text is read back as them, and the layout for styles that print floats without blanks, brackets and quotes.
- `itoa` is canonical decimal.
- Raw memory: relocation near a page end, uninitialised vectors and reads past the slice. An input reads as if zeros followed it; the counts and the stack of stage 2 start with arbitrary contents.
- The string buffer of `parse_str_` is an array of the input's length plus 32, as its reserved capacity; that its vector has length 0 is not modelled.
- Vector instructions appear by what they do to each lane, and masks as sequences of bits, 32 or 64 of them.
- The zero-padded copies that `parse_number_root` and `parse_number` make are the same as reading zeros past the end, so the three variants are one member, and so are `parse` and `parse_value`.
- `&mut` parameters of the block functions are returned values; `structural_indexes`, `counts` and `stack` are fields that hold sequences.
- Owned.ToValue: inputs that are accepted at stored positions other than those of their tokens, which takes a token at 4 GB or beyond (`Documents.FollowedExact`, `Documents.LargeArrayMisread`); what a builder makes of such tokens is not modelled.
- Borrowed.ToValue: the same inputs.
- Serde.FromSlice: the same inputs.
- RoundTrip.WriteThenOwn: the same texts.
- RoundTrip.WriteThenBorrow: the same texts.
- RoundTrip.WriteThenDeserialize: the same texts.
- Error positions and texts; only Ok or Err is stated, and the kind in stage 1.
- The `halfbrown` map: an object is the list of its members in the order of insertion; the iteration order of the real map is any order, and the round trip holds for each.
- Typed serde methods, serializers, map-key deserializers, macros, comparisons and conversions: wrappers around what is modelled.
- `src/value/borrowed/serialize.rs`: the same printer again.
- Generators that write into an `io::Write`, whose failures are the only difference.
- Debug builds, in which wrapping additions, multiplications and negations stop the program instead.
