# Verified text algorithms of the webpp benchmarks

A Dafny model of the text-processing algorithms that webpp compares in its benchmarks, with
proofs that they do what they are for. `dafny verify dfyconfig.toml` checks all of it.

- **Unicode normalization** (`UnicodeData`, `UnicodeTables`, `CanonicalOrder`,
  `CanonicalDecomposition`, `CanonicalComposition`, `ComposedForm`, `StandardComposition`,
  `CanonicalEquivalence`, `Normalization`, `PrecomposedText`, `TableEncoding`, `Normalizer`).
  `Normalizer` holds the routines as they run: they rewrite one buffer in place and read the
  two-level tables. Each is proved equal to a
  function on texts (`Decompose`, `Sort`, `Compose`), and the theorems are about those functions:
  the sort computes the one canonical order, composition keeps meaning and is maximal, it is the
  algorithm of the Unicode Standard, and normalization is idempotent and decides canonical
  equivalence.
- **Eight bytes at a time** (`Words`, `HostDelimiter`, `LowerAscii`, `LowerWords`): the delimiter
  search and in-place lowercasing on 64-bit words, against the plain byte-by-byte meaning, in both
  byte orders; `LowerWords` says what becomes of bytes that are not ASCII.
- **IP addresses** (`Ipv4`, `Ipv4Failures`, `Ipv4Routines`, `Ipv6Text`, `Ipv6Grammar`,
  `Ipv6Letters`, `Ipv6Failures`, `Ipv6Parser`, `Ipv6Printing`, `Ipv6Printers`, `AdaIpv6`,
  `AdaAgreement`): two dotted-quad parsers and their printer are inverse; two IPv6 parsers accept
  exactly the grammar of RFC 4291, in either case of letter; five printers, three of which print
  the same text, are undone by the parsers and use small letters only. What is not accepted is
  described by where reading stops.
- **Tokenizer** (`Tokens`, `Quoting`, `Tokenizer`): the cursor class, and whole runs of it against
  the one way to cut a text at the delimiters outside quotes; `Quoting` says what quotes are by a
  grammar.
- **Comparison** (`IgnoringEquals`): three comparisons that ignore case and line breaks, each with
  the exact condition under which it meets the common specification.

## How to read it

Properties of characters are a record `Ucd` of three functions: combining class, decomposition,
composition pairs. `UcdOK` says what the theorems assume of them: decompositions are decomposed and
ordered; a pair (a, b) with composite c has D(c) = D(a) + [b] and D(b) = [b], with a and c starters
that are Unicode code points; jamo and syllables are starters and begin no pair, jamo stand for
themselves and syllables decompose by arithmetic. Two further facts
serve the results about precomposed text only: `AfterSyllablesOK`, that the few characters after the
last syllable are starters that stand for themselves and are in no pair, and `MarksOK`, that marks
keep their class, that is, decompose into marks of it.

`Properties(t)` reads such a record out of tables `t`, whose shape (the type `Tables`) makes every
access an access inside its table, and `TableOK` adds that keys ascend in each composition range.
Every composition range must have even length; that all offsets have one parity is not assumed, and
would be false of rows without compositions. `SampleIsOK` and `EmptyTablesAreOK` show that the
assumptions can be met. `TableEncoding` goes the other way: from classes, mappings and pairs for
every code point it lays out the tables, without the lookups, and the lookups find them again.

Where the code and its purpose part, the code is kept and the difference is proved:

- The branch of `compose` for precomposed syllables tests for a remainder that is not zero where
  only a zero remainder should take a trailing consonant. Decomposed text never reaches it. Other
  text in order, whose marks keep their class, changes its meaning exactly when a syllable with a
  trailing consonant stands before another (`ComposeKeepsMeaningIff`, with
  `ComposeNeedsDecomposedText` as an example), and something is left to compose in it exactly when a
  syllable without one, read or merged, stands before one (`ComposeIsMaximalIff`, with `GapSample`
  and `MergedGapSample` as examples).
- The class of the last mark passed over tells what is blocked only in text in order
  (`OutOfOrderSample`); elsewhere that mark alone can block (`ComposeIsStandardIff`). The sort that
  normalize makes first puts every text in order.
- `test::iiequals` is wrong exactly when one text is empty and the other consists of deleted
  characters; `test2` when equal texts end in deleted characters, even the same ones; `test3` when
  those they end in do not cancel (`IiequalsChunked`, `IiequalsSkipping`, `IiequalsGreedy`, with
  `ChunkedFails`, `SkippingFails` and `GreedyFails` as examples).
- The printers v3, v4 and v5 terminate their text except when it ends in a dotted quad, and then
  leave the character after it as it was; the webpp printer always terminates (`InetNtop6V5`,
  `InetNtop6Webpp`; `MappedSample` is such an address).
- On false the second tokenizer leaves its end cursor behind the begin cursor, the first does not
  (`QuickNextV2`, `QuickNextV1`).
- The tokenizer overload that is given no quotes passes the null character as a quote, and cuts
  as without quotes exactly when every field but the last holds null characters that close
  (`QuotesChangeNothingIff`, with `NullsAreQuotes` as an example).

## Model

| member | source | states |
|---|---|---|
| `Normalizer.Normalize` | benchmarks/ada/ada_normalize.hpp:3907-3914 | the buffer ends up holding the composed normal form of its old contents; with well-formed Unicode data that text is maximally composed and canonically equivalent to the input |
| `Normalization.NfcDecidesEquivalence` | benchmarks/ada/ada_normalize.hpp:3806-3914 | two inputs normalize to the same text exactly when they are canonically equivalent (connected by decompositions and by exchanges of neighbouring marks that stand for themselves and differ in class, in either direction), exactly when their decomposed forms agree; every text is equivalent to its normal form |
| `Normalization.NfcIsIdempotent` | benchmarks/ada/ada_normalize.hpp:3907-3914 | normalizing a normalized text changes nothing |
| `Normalization.NfcKeepsNfd` | benchmarks/ada/ada_normalize.hpp:3806-3914 | normalizing does not change what a text decomposes to |
| `Normalization.NfcIsMaximal` | benchmarks/ada/ada_normalize.hpp:3829-3914 | no character of a normalized text composes with a later unblocked one, and no L+V or LV+T is left adjacent |
| `PrecomposedText.ComposeKeepsMeaningIff` | benchmarks/ada/ada_normalize.hpp:3854-3862 | a text in which a syllable with a trailing consonant stands before another trailing consonant is never equivalent to what compose makes of it, whatever else it holds; text in order whose marks decompose, if at all, into marks of their own class (starters may be precomposed) is equivalent to it exactly when there is no such place; with data in which every mark does so, that is all text in order |
| `PrecomposedText.ComposeIsMaximalIff` | benchmarks/ada/ada_normalize.hpp:3854-3862 | the other side of the same test: where a syllable without a trailing consonant stands before one, read so or made so by a merge, compose leaves the two beside each other; on such text in order the result is maximal exactly when there is no such place |
| `PrecomposedText.ComposeNeverGrows` | benchmarks/ada/ada_normalize.hpp:3829-3905 | composing never lengthens the decomposition of a text, and a merge shortens it |
| `PrecomposedText.AbsorbKeepsSize` | benchmarks/ada/ada_normalize.hpp:3867-3898 | whatever the order of its marks, a segment keeps the length of its decomposition |
| `PrecomposedText.SyllableBeginsPiece` | benchmarks/ada/ada_normalize.hpp:3836-3900 | a syllable is taken up by no piece but its own, so its branch is reached wherever one stands |
| `PrecomposedText.SyllableBranch` | benchmarks/ada/ada_normalize.hpp:3854-3862 | by code points: compose adds up a syllable that has a trailing consonant and the consonant after it, and leaves every other syllable as it is |
| `Normalizer.SortMarks` | benchmarks/ada/ada_normalize.hpp:3790-3804 | the in-place sort leaves the canonical order of the old buffer |
| `Normalizer.InsertMark` | benchmarks/ada/ada_normalize.hpp:3796-3802 | one inner loop moves a mark back past exactly the marks of higher class before it and leaves all that follows untouched |
| `CanonicalOrder.SortIsInOrder` | benchmarks/ada/ada_normalize.hpp:3790-3804 | after sorting no adjacent pair has ccc(a) > ccc(b) > 0 |
| `CanonicalOrder.SortIsPermutation` | benchmarks/ada/ada_normalize.hpp:3790-3804 | sorting permutes the characters |
| `CanonicalOrder.SortKeepsStarters` | benchmarks/ada/ada_normalize.hpp:3790-3804 | a starter stays at its index and no mark takes the place of one |
| `CanonicalOrder.SortKeepsProjection` | benchmarks/ada/ada_normalize.hpp:3790-3804 | the sort is stable: starters together with the marks of any one class keep their order |
| `CanonicalOrder.SortOfOrdered` | benchmarks/ada/ada_normalize.hpp:3790-3804 | text already in canonical order is left alone |
| `CanonicalOrder.SortIgnoresSwap` | benchmarks/ada/ada_normalize.hpp:3790-3804 | exchanging two adjacent marks of different non-zero classes in the input does not change the output |
| `CanonicalOrder.OrderIsUnique` | benchmarks/ada/ada_normalize.hpp:3790-3804 | two ordered texts that agree on starters and on each class of marks are the same text: the order is unique |
| `CanonicalOrder.SortDecidesReordering` | benchmarks/ada/ada_normalize.hpp:3790-3804 | two texts sort to the same text exactly when starters together with each class of marks appear in the same order in both |
| `Normalizer.DecompositionLength` | benchmarks/ada/ada_normalize.hpp:3718-3733 | the length computed for one character is that of its decomposition, and 0 exactly when it stands for itself (no slice, or first offset flagged) |
| `Normalizer.ComputeDecompositionLength` | benchmarks/ada/ada_normalize.hpp:3714-3740 | the flag is set exactly when some character decomposes, and size plus additional elements is the length of the decomposed text |
| `Normalizer.WriteHangul` | benchmarks/ada/ada_normalize.hpp:3747-3754 | the L V (T) of a syllable by arithmetic, written backwards ending at the cursor, nothing else touched |
| `Normalizer.WriteSlice` | benchmarks/ada/ada_normalize.hpp:3767-3771 | a table slice written backwards ending at the cursor, nothing else touched |
| `Normalizer.WriteDecomposition` | benchmarks/ada/ada_normalize.hpp:3747-3780 | the decomposition of one character written backwards ending at the cursor, whichever of the four branches applies |
| `Normalizer.DecomposeInPlace` | benchmarks/ada/ada_normalize.hpp:3742-3782 | filling the grown buffer from the back never overwrites an unread character, ends at index 0 and leaves exactly the decompositions of the old characters in order |
| `Normalizer.FillHasRoom` | benchmarks/ada/ada_normalize.hpp:3744-3780 | before each round the write cursor is far enough above the read cursor for the next decomposition |
| `Normalizer.DecomposeNfc` | benchmarks/ada/ada_normalize.hpp:3806-3816 | decompose-and-sort leaves the canonical decomposition of the old buffer |
| `TableEncoding.PairIsEncoded` | benchmarks/ada/ada_normalize.hpp:3864-3890 | whatever ascending pairs are given to each code point: laid out in index, rows and data, in any arrangement of the rows, they are found again by the lookups, each pair with its composite and no other pair |
| `TableEncoding.DecompositionIsEncoded` | benchmarks/ada/ada_normalize.hpp:3755-3780 | whatever text each code point maps to and whether or not canonically: out of the tables so laid out comes that text when it is canonical and not empty, and the character itself otherwise, the syllables excepted |
| `TableEncoding.CccIsEncoded` | benchmarks/ada/ada_normalize.hpp:3784-3788 | the class given to each code point is the one read back, and 0 beyond the code points |
| `TableEncoding.EncodedIsWellFormed` | benchmarks/ada/ada_normalize.hpp:3714-3905 | laid out so, the tables have the shape in which no access falls outside, for any data and any arrangement |
| `TableEncoding.EncodedIsSearchable` | benchmarks/ada/ada_normalize.hpp:3872-3890 | and each range is one that the binary search may be run on |
| `CanonicalDecomposition.NfdIsNfd` | benchmarks/ada/ada_normalize.hpp:3806-3816 | the result is fully decomposed and in canonical order, and a text is left unchanged exactly when it already was both |
| `CanonicalDecomposition.HangulRoundTrip` | benchmarks/ada/ada_normalize.hpp:3704-3712 | composing L, V and optional T by arithmetic gives a syllable whose arithmetic decomposition is those jamo (section 3.12 of the Unicode Standard) |
| `CanonicalDecomposition.SyllablesAre` | benchmarks/ada/ada_normalize.hpp:3747-3754 | by code points: syllable 0xAC00 + (l * 21 + v) * 28 + t decomposes into 0x1100 + l, 0x1161 + v and, if t is not 0, 0x11A7 + t |
| `CanonicalDecomposition.HangulRanges` | benchmarks/ada/ada_normalize.hpp:3836-3862 | the ranges of syllables and of the three kinds of jamo, by code points |
| `CanonicalEquivalence.NfdDecidesEquivalence` | benchmarks/ada/ada_normalize.hpp:3806-3816 | two texts have the same decomposed form exactly when a chain of decompositions and of exchanges of neighbouring marks that stand for themselves and differ in class, in either direction, connects them |
| `Normalizer.ComposeInPlace` | benchmarks/ada/ada_normalize.hpp:3829-3905 | the two-cursor loop, with its final resize, leaves exactly the segment-by-segment composition of the old buffer, for decomposed and other text alike; the loops end |
| `Normalizer.ComposeNext` | benchmarks/ada/ada_normalize.hpp:3836-3900 | one round of the outer loop writes the next composed piece behind the read cursor and changes nothing that is still to be read |
| `Normalizer.ComposeHangul` | benchmarks/ada/ada_normalize.hpp:3838-3862 | the two Hangul branches: which jamo are taken and the syllable they form |
| `Normalizer.AbsorbInPlace` | benchmarks/ada/ada_normalize.hpp:3864-3898 | the inner loop: after it the starter has become its composite with every unblocked mark that composes, the skipped marks follow it in order, and the unread rest is untouched |
| `Normalizer.TryCompose` | benchmarks/ada/ada_normalize.hpp:3870-3890 | a character that follows is composed exactly when it is unblocked and the pair is in the range of the current, changing starter |
| `Normalizer.FindComposition` | benchmarks/ada/ada_normalize.hpp:3872-3884 | the even-step binary search ends on the key exactly when the range holds it, with its composite beside it |
| `Normalizer.FindPairAt` | benchmarks/ada/ada_normalize.hpp:3884-3885 | in a range with ascending keys the composite found for a key is the one stored beside it |
| `CanonicalComposition.ComposeThenDecompose` | benchmarks/ada/ada_normalize.hpp:3829-3905 | decomposing what was composed from decomposed text gives that text back |
| `CanonicalComposition.ComposeKeepsMeaning` | benchmarks/ada/ada_normalize.hpp:3829-3905 | on text in order whose marks keep their class, with no syllable merged, composing never changes the canonical order of what the text decomposes to, after any prefix |
| `CanonicalComposition.AbsorbKeepsMeaning` | benchmarks/ada/ada_normalize.hpp:3867-3898 | composing a mark past skipped marks of lower class keeps meaning: the stable sort puts it back |
| `CanonicalComposition.BringForward` | benchmarks/ada/ada_normalize.hpp:3790-3804 | a character may be brought forward past marks of lower non-zero class without changing the sorted text |
| `CanonicalComposition.SyllablePiece` | benchmarks/ada/ada_normalize.hpp:3838-3852 | a composed L V (T) decomposes into exactly the jamo read |
| `ComposedForm.ComposeIsMaximal` | benchmarks/ada/ada_normalize.hpp:3829-3905 | after compose on decomposed text nothing that could still be composed is left |
| `ComposedForm.OrderlyIsMaximal` | benchmarks/ada/ada_normalize.hpp:3829-3905 | the same on such text in order with precomposed starters, as long as no syllable is left before a consonant it could take |
| `ComposedForm.AbsorbIsMaximal` | benchmarks/ada/ada_normalize.hpp:3867-3898 | skipped marks that are still unblocked do not compose with the final starter, though none is tried again after the starter changes |
| `ComposedForm.CompositeRejectsLowerMarks` | benchmarks/ada/ada_normalize.hpp:3884-3889 | why no retry is needed: a composite formed with a mark composes with no mark of lower class |
| `ComposedForm.FirstComposed` | benchmarks/ada/ada_normalize.hpp:3829-3905 | a composed piece never begins with a character that could complete a pair with what precedes it, unless it was read as it stands |
| `StandardComposition.ComposeIsStandardIff` | benchmarks/ada/ada_normalize.hpp:3829-3905 | for every text, in order or not: compose is the one-character-at-a-time algorithm in which only the last mark passed over can block, exactly when no syllable stands before a trailing consonant; for text in order, precomposed or not, that algorithm is the one of section 3.11 of the Unicode Standard |
| `StandardComposition.ComposeIsStandard` | benchmarks/ada/ada_normalize.hpp:3829-3905 | on decomposed text the segment-wise compose equals the canonical composition algorithm of section 3.11 of the Unicode Standard, one character at a time looking back to the last starter |
| `StandardComposition.AbsorbIsStandard` | benchmarks/ada/ada_normalize.hpp:3867-3898 | within a segment the class of the last skipped mark decides blocking: on text in order exactly as the standard definition does, elsewhere as the rule that only the last one can block |
| `HostDelimiter.FindNextHostDelimiter` | benchmarks/charset/ada_find_char.hpp:78-134 | for every string, start and byte order: the least index at or after the start that holds one of the four delimiters, or the size if there is none |
| `HostDelimiter.DelimitersAre` | benchmarks/charset/ada_find_char.hpp:94-97 | the four delimiters are : / ? [ |
| `HostDelimiter.WordIsSearched` | benchmarks/charset/ada_find_char.hpp:98-132 | a word loaded from up to eight bytes reports no match exactly when none of them is a delimiter, otherwise the first; zero padding is never taken for a match |
| `HostDelimiter.MatchesFindFirst` | benchmarks/charset/ada_find_char.hpp:82-112 | with the four masks or-ed together the first set byte is the first delimiter, borrows notwithstanding |
| `HostDelimiter.FirstHit0` | benchmarks/charset/ada_find_char.hpp:82-87 | a hit in byte 0 is found at 0 whatever borrow flags the other bytes raise |
| `HostDelimiter.FirstHit7` | benchmarks/charset/ada_find_char.hpp:82-87 | a hit in byte 7 only is found at 7: no byte below raises a false flag |
| `HostDelimiter.NoHit` | benchmarks/charset/ada_find_char.hpp:82-110 | a word without delimiters raises no flag |
| `Words.SwapReverses` | benchmarks/charset/ada_find_char.hpp:57-63 | swap_bytes reverses the bytes and is its own inverse |
| `Words.SwapMakesLittleEndian` | benchmarks/charset/ada_find_char.hpp:65-73 | after the conditional swap the first byte in memory is the least significant on either kind of machine |
| `Words.BroadcastFills` | benchmarks/charset/ada_find_char.hpp:88-90 | the multiplication puts the byte in all eight places |
| `LowerAscii.ToLowerAscii` | benchmarks/tolower/tolower_benchmark.cpp:921-943 | true exactly when every byte is below 0x80, and then every byte has been lowered; in any case the buffer holds the chunk-wise result, for every length |
| `LowerAscii.TextIsLowered` | benchmarks/tolower/tolower_benchmark.cpp:928-941 | a byte whose own eight-byte word (or tail) is ASCII is lowered correctly whatever the other words hold |
| `LowerWords.TextIsLoweredAt` | benchmarks/tolower/tolower_benchmark.cpp:921-943 | what becomes of any byte of any text, ASCII or not: it depends on the bytes of its own word alone, through the carries that reach it from below, in either byte order |
| `LowerWords.ChunkIsLoweredAt` | benchmarks/tolower/tolower_benchmark.cpp:930-940 | the same for one word or tail: carries run forwards through memory on a little-endian machine and backwards on a big-endian one |
| `LowerWords.CaseBitIsFlipped` | benchmarks/tolower/tolower_benchmark.cpp:932 | of the lower seven bits those of a capital have the case bit flipped, whatever the high bit; a carry into the first sum takes @ in, one into the second leaves Z out |
| `LowerWords.AsciiDoesNotCarry` | benchmarks/tolower/tolower_benchmark.cpp:932 | a byte with only ASCII bytes below it in its word receives no carry, and is lowered correctly if it is ASCII itself |
| `LowerWords.LettersAreLowered` | benchmarks/tolower/tolower_benchmark.cpp:921-932 | a capital becomes the small letter as far into the alphabet, any other byte is left |
| `LowerAscii.ChunkIsLowered` | benchmarks/tolower/tolower_benchmark.cpp:930-940 | loading, lowering and storing up to eight ASCII bytes lowers each of them, in either byte order |
| `LowerAscii.ChunkIsChecked` | benchmarks/tolower/tolower_benchmark.cpp:931-938 | the high bits collected from a word are zero exactly when all bytes copied into it are ASCII |
| `LowerAscii.HighBytesAreLowered` | benchmarks/tolower/tolower_benchmark.cpp:932 | in a word of ASCII bytes the two additions carry nothing from byte to byte (upper four bytes) |
| `LowerAscii.LowBytesAreLowered` | benchmarks/tolower/tolower_benchmark.cpp:932 | the same for the lower four bytes |
| `Ipv4Routines.InetPton4V1` | benchmarks/ip/inet_pton4_parser.hpp:19-54 | the status and the octets left in the buffer are those of the reference parser for every text; bytes outside the octets begun are untouched |
| `Ipv4Routines.InetPton4V2` | benchmarks/ip/inet_pton4_parser.hpp:59-109 | the same for the switch version, so the two agree on status and bytes for every input |
| `Ipv4.ParseAcceptsDotted` | benchmarks/ip/inet_pton4_parser.hpp:19-54 | a text is accepted with octets o exactly when it is the printed text of o; it is accepted at all exactly when it is the printed text of some four octets |
| `Ipv4.ParseOfDotted` | benchmarks/ip/inet_pton4_parser.hpp:19-54 | parsing printed octets is valid and returns them |
| `Ipv4.RunIsSound` | benchmarks/ip/inet_pton4_parser.hpp:19-54 | whatever has been read, accepting the rest means that the whole text is the printed text of the octets |
| `Ipv4Failures.ParseStops` | benchmarks/ip/inet_pton4_parser.hpp:19-54 | for every text, accepted or not: a first part of it is printed text of the octets returned, and what follows decides the status, case by case |
| `Ipv4Failures.DigitsAre` | benchmarks/ip/inet_pton4_parser.hpp:25-26 | the ten digits and their values |
| `Ipv4Routines.InetNtop4` | benchmarks/ip_to_string/ip_to_string_benchmark.cpp:509-533 | appends the dotted decimal text of four octets without leading zeros, at most fifteen characters |
| `Ipv4Routines.InetNtop4Terminated` | benchmarks/ada/webpp_ip_serializers.hpp:53-78 | the same followed by a null character |
| `Ipv4Routines.PutOctet` | benchmarks/ip_to_string/ip_to_string_benchmark.cpp:510-519 | one to three digits, exactly the decimal text of the octet |
| `Ipv6Grammar.Parse6IsGrammar` | benchmarks/ip/ipv6_benchmark.cpp:17-124 | inet_pton6 is valid with octets o exactly when the text has a form of section 2.2 of RFC 4291 (groups of 1-4 hex digits, at most one :: for at least one group, optional final dotted quad) whose value is o |
| `Ipv6Grammar.FormIsAccepted` | benchmarks/ip/ipv6_benchmark.cpp:17-124 | every text form is accepted with its value |
| `Ipv6Grammar.AcceptedIsForm` | benchmarks/ip/ipv6_benchmark.cpp:17-124 | every accepted text is a text form, and the octets are its value |
| `Ipv6Grammar.AfterGap` | benchmarks/ip/ipv6_benchmark.cpp:39-124 | what is accepted after a :: is a right-hand side of the grammar |
| `Ipv6Grammar.BeforeGap` | benchmarks/ip/ipv6_benchmark.cpp:39-124 | what is accepted with no :: seen so far is a form or the rest of one |
| `Ipv6Letters.ParseIgnoresCase` | benchmarks/ip/ipv6_benchmark.cpp:39-124 | a text and the same text with any of A to F made small are read alike, status and octets, failures included |
| `Ipv6Letters.DigitsAscend` | benchmarks/ip/ipv6_benchmark.cpp:40-47 | the digits are 0-9, a-f and A-F; their values ascend in that order from 0 to 15, and a capital is worth what its small letter is |
| `Ipv6Letters.GroupIsInNetworkOrder` | benchmarks/ip/ipv6_benchmark.cpp:68-69 | four digits make two octets, the first two digits the first |
| `Ipv6Failures.ParseStops` | benchmarks/ip/ipv6_benchmark.cpp:17-124 | for every text, accepted or not: a first part of it is spelled by groups and perhaps a gap, and what follows decides status and octets, case by case |
| `Ipv6Parser.InetPton6WithMemmove` | benchmarks/ip/ipv6_benchmark.cpp:17-124 | status and buffer are those of the reference parser for every text, failures included; the output cursor never passes byte 16 |
| `Ipv6Parser.InetPton6ByHand` | benchmarks/ip/ipv6_benchmark.cpp:174-291 | the same, so both parsers agree on status and octets for every text |
| `Ipv6Parser.ReadText` | benchmarks/ip/ipv6_benchmark.cpp:21-103 | the one-pass loop with its cursors, open group, remembered gap and early returns follows the reference parser step by step |
| `Ipv6Parser.WriteLastGroup` | benchmarks/ip/ipv6_benchmark.cpp:97-103 | the group still open after the loop is written if there is room, otherwise the range error is returned with the buffer unchanged |
| `Ipv6Parser.ExpandByHand` | benchmarks/ip/ipv6_benchmark.cpp:272-281 | the right-to-left loop and the zero fill move the octets after the gap to the end and zero the gap, for every buffer length and every colonp <= out < endp, overlapping or not |
| `Ipv6Parser.ExpandWithMemmove` | benchmarks/ip/ipv6_benchmark.cpp:112-114 | memmove and memset do the same |
| `Ipv6Parser.Finished` | benchmarks/ip/ipv6_benchmark.cpp:104-123 | the checks after the loop: zero-width gap, wrong length, trailing slash |
| `Ipv6Printing.ParseOfNtop6` | benchmarks/ip_to_string/ip_to_string_benchmark.cpp:858-980 | printing any sixteen octets and parsing the text is valid and gives them back, mapped, compatible and all-zero addresses included |
| `Ipv6Printing.ParsePrinted` | benchmarks/ip_to_string/ip_to_string_benchmark.cpp:944-975 | the same for whichever run of zero groups is left out |
| `Ipv6Printing.CompressedFormValue` | benchmarks/ip_to_string/ip_to_string_benchmark.cpp:944-975 | leaving out a run of zero groups yields a form of the grammar whose value is the address |
| `Ipv6Printing.PrintedFormValue` | benchmarks/ip_to_string/ip_to_string_benchmark.cpp:926-975 | the same with the dotted-quad endings for mapped and compatible addresses |
| `Ipv6Printing.Ntop6Is` | benchmarks/ip_to_string/ip_to_string_benchmark.cpp:694-744 | any way of selecting a rightmost longest run leads to the same text |
| `Ipv6Printing.QuadIsPrinted` | benchmarks/ip_to_string/ip_to_string_benchmark.cpp:817-833 | a dotted quad is printed exactly when the first six groups are zero and the seventh is not, or the first five are zero and the sixth is ffff |
| `Ipv6Printing.Ntop6Length` | benchmarks/ip_to_string/ip_to_string_benchmark.cpp:858-980 | no printed text is empty or longer than 39 characters |
| `Ipv6Letters.Ntop6IsPrinted` | benchmarks/ip_to_string/ip_to_string_benchmark.cpp:640 | every character of the text of every address is one of 0-9, a-f, colon and dot (section 4.3 of RFC 5952) |
| `Ipv6Printing.HexTextIsGroup` | benchmarks/ip_to_string/ip_to_string_benchmark.cpp:664-691 | the hexadecimal text of two octets is a group of the grammar with those octets as its value |
| `Ipv6Printers.InetNtop6V3` | benchmarks/ip_to_string/ip_to_string_benchmark.cpp:646-744 | appends the one text of the address, at most 39 characters; a null character follows it unless it ends in a dotted quad, in which case the character after it is left as it was; nothing further on is written |
| `Ipv6Printers.InetNtop6V4` | benchmarks/ip_to_string/ip_to_string_benchmark.cpp:753-851 | the same text, terminator and untouched rest as v3 |
| `Ipv6Printers.InetNtop6V5` | benchmarks/ip_to_string/ip_to_string_benchmark.cpp:858-980 | the same text, terminator and untouched rest as v3 and v4 |
| `Ipv6Printers.InetNtop6Webpp` | benchmarks/ada/webpp_ip_serializers.hpp:91-214 | the same text except that IPv4-compatible addresses are printed in hexadecimal; always terminated; nothing after the terminator is written |
| `Ipv6Printers.LongestRunDownwards` | benchmarks/ip_to_string/ip_to_string_benchmark.cpp:694-708 | the downward strictly-greater scan selects the rightmost longest run of zero groups |
| `Ipv6Printers.FillTableAndScan` | benchmarks/ip_to_string/ip_to_string_benchmark.cpp:865-923 | the upward greater-or-equal scan selects the same run, while the table receives every group text |
| `Ipv6Printers.FillTable` | benchmarks/ip_to_string/ip_to_string_benchmark.cpp:653-692 | every table entry holds the text of its group, ended by a null character |
| `Ipv6Printers.WriteGroup` | benchmarks/ip_to_string/ip_to_string_benchmark.cpp:658-691 | leading zero digits are skipped, the last digit is always written, other entries are untouched |
| `Ipv6Printers.PutFirstColon` | benchmarks/ip_to_string/ip_to_string_benchmark.cpp:817-833 | a text that starts with the run starts with a colon, and is finished at once exactly when it ends in a dotted quad |
| `Ipv6Printers.PutAroundGap` | benchmarks/ip_to_string/ip_to_string_benchmark.cpp:944-975 | the groups before the run, a colon for it, the groups after it |
| `Ipv6Printers.PutAllGroups` | benchmarks/ip_to_string/ip_to_string_benchmark.cpp:834-847 | the one-pass loop that steps over the run writes the same text |
| `AdaIpv6.Ipv6` | benchmarks/ada/ada_ip_serializers.hpp:36-75 | between brackets, the text that leaves out exactly the leftmost longest zero run when it has at least two groups (sections 4.2.2 and 4.2.3 of RFC 5952); the buffer is never overrun |
| `AdaIpv6.FindLongestSequence` | benchmarks/ada/ada_ip_serializers.hpp:13-34 | the index-jumping search finds the leftmost longest run |
| `AdaIpv6.ParseOfAdaText` | benchmarks/ada/ada_ip_serializers.hpp:36-75 | parsing the text without its brackets gives the address back |
| `AdaIpv6.AdaTextIsUnique` | benchmarks/ada/ada_ip_serializers.hpp:42-46 | there is one such text for each address |
| `AdaIpv6.NoLeadingZero` | benchmarks/ada/ada_ip_serializers.hpp:64 | groups are written without leading zeros (section 4.1 of RFC 5952) |
| `Ipv6Letters.AdaTextIsPrinted` | benchmarks/ada/ada_ip_serializers.hpp:64 | and so is every character of the text that the serializer puts between its brackets |
| `AdaIpv6.PutPieces` | benchmarks/ada/ada_ip_serializers.hpp:54-71 | the writing loop puts the pieces and the gap in order and stays within the buffer |
| `AdaAgreement.PrinterAgrees` | benchmarks/ada/ada_ip_serializers.hpp:36-75 | the v3-v5 and webpp printers print the text of the serializer exactly when it does not end in a dotted quad and either no group is zero or one run of at least two zero groups is longer than every other |
| `Tokenizer.Tokenizer.FullNext` | benchmarks/tokenizer/string_tokenizer_v2.hpp:395-452 | each call delivers the next token the options ask for among those still ahead of the cursor, of the kind token_is_delim reports, and false exactly when none is left |
| `Tokenizer.Tokenizer.SlurpToken` | benchmarks/tokenizer/string_tokenizer_v2.hpp:411-416 | the token ends at the first delimiter outside quotes, or at the end |
| `Tokenizer.AdvanceState.AdvanceOne` | benchmarks/tokenizer/string_tokenizer_v2.hpp:467-490 | one character: quotes open and close, a backslash inside quotes protects the next character, and only a delimiter outside quotes ends the token |
| `Tokenizer.Tokenizer.QuickNextV2` | benchmarks/tokenizer/string_tokenizer_v2.hpp:374-392 | the next maximal delimiter-free piece, or false when only delimiters remain, in which case the end cursor stays behind |
| `Tokenizer.Tokenizer.QuickNextV1` | benchmarks/tokenizer/string_tokenizer_v1.hpp:374-392 | the same piece; on false both cursors are at the end |
| `Tokenizer.CollectFull` | benchmarks/tokenizer/string_tokenizer_v2.hpp:22-80 | a run from a fresh tokenizer up to the first false ends, yields exactly the tokens asked for, and with delimiters returned they concatenate to the input |
| `Tokenizer.CollectQuickV1` | benchmarks/tokenizer/string_tokenizer_v1.hpp:374-392 | a run of v1 without options yields the fields of the input |
| `Tokenizer.CollectQuickV2` | benchmarks/tokenizer/string_tokenizer_v2.hpp:374-392 | a run of v2 without options yields the same fields |
| `Tokens.PiecesAreTheSplit` | benchmarks/tokenizer/string_tokenizer_v2.hpp:395-452 | texts without unquoted delimiters, closed before each single delimiter, that spell the input: there is exactly one such sequence, and it is the one the tokenizer cuts |
| `Tokens.RunTilesTheInput` | benchmarks/tokenizer/string_tokenizer_v2.hpp:10-20 | with return_delims, with or without return_empty_tokens, the tokens concatenate to the input |
| `Tokens.RunTokensAreWellFormed` | benchmarks/tokenizer/string_tokenizer_v2.hpp:10-20 | every token is one delimiter, or a text with no delimiter outside its quotes, and of a kind the options ask for |
| `Tokens.QuotesChangeNothingIff` | benchmarks/tokenizer/string_tokenizer_v2.hpp:119-130 | an input is cut with quotes as it is without them exactly when every field but the last closes the quotes it opens; the overload without quotes passes the null character as one |
| `Quoting.QuotedTextIsOneToken` | benchmarks/tokenizer/string_tokenizer_v2.hpp:467-490 | any text at all, with a backslash before each quote and each backslash in it, is one token once put in quotes: delimiters in it do not count, and a delimiter after the closing quote ends the token |
| `Quoting.QuotedIsPassed` | benchmarks/tokenizer/string_tokenizer_v2.hpp:467-490 | plain text and then a body between quotes, in which a backslash protects what follows it, are passed over: the cut is where what comes after puts it |
| `Quoting.OpenIsWhole` | benchmarks/tokenizer/string_tokenizer_v2.hpp:467-490 | quotes that the input does not close keep the rest of it in the token |
| `Quoting.UnclosedIsOneToken` | benchmarks/tokenizer/string_tokenizer_v2.hpp:467-490 | after an opening quote and any text so escaped there is no further token |
| `Quoting.NothingToEscape` | benchmarks/tokenizer/string_tokenizer_v2.hpp:476-480 | a text without quote and backslash is put in quotes as it is |
| `Quoting.BackslashIsWhole` | benchmarks/tokenizer/string_tokenizer_v2.hpp:474-480 | a backslash passed as a quote is never closed |
| `Tokens.AskedOfOne` | benchmarks/tokenizer/string_tokenizer_v2.hpp:10-20 | one option keeps or drops delimiters, the other empty texts, and other texts are always kept |
| `Tokens.FieldsTakeNext` | benchmarks/tokenizer/string_tokenizer_v2.hpp:374-392 | the fields are the maximal delimiter-free pieces in order: the next one first, then those after it |
| `Tokens.FieldsEnd` | benchmarks/tokenizer/string_tokenizer_v2.hpp:377-381 | no field is left when only delimiters remain |
| `IgnoringEquals.IiequalsChunked` | benchmarks/iequals/iiequals_impl.hpp:22-75 | true exactly when the texts are equal after deleting tab, CR and LF and lowering, provided both or neither are empty; for every chunk size |
| `IgnoringEquals.IiequalsSkipping` | benchmarks/iequals/iiequals_impl.hpp:82-118 | true exactly when they are equal so and neither ends in a deleted character |
| `IgnoringEquals.IiequalsGreedy` | benchmarks/iequals/iiequals_impl.hpp:124-156 | true exactly when they are equal so and the deleted characters they end in cancel: none in both, or those of the right text can be had from those of the left by leaving some out, but not without the last; for texts that end in none, exactly when equal; true is always right |
| `IgnoringEquals.GreedyIs` | benchmarks/iequals/iiequals_impl.hpp:133-155 | matching equal characters before skipping changes the answer through trailing deleted characters only |
| `IgnoringEquals.NormalHeads` | benchmarks/iequals/iiequals_impl.hpp:43-58 | once deleted characters are passed, equality is decided by the heads and then the tails |
| `IgnoringEquals.NormalOfOne` | benchmarks/iequals/iiequals_impl.hpp:14-19 | A to Z become a to z, tab, CR and LF are deleted, every other character is kept |
| `IgnoringEquals.NormalConcat` | benchmarks/iequals/iiequals_impl.hpp:22-75 | a text is treated character by character |

## Left out

- The contents of the Unicode tables: the model reads tables of the same layout, and the theorems hold for all whose contents satisfy `TableOK`.
- Machine widths of indices: `size_t` cursors, `uint16_t` offsets and `int` counters are unbounded here; all stay within the length of a buffer or a table. Code points keep their 32-bit range, words their 64 bits with wrap-around, octets their 8 bits.
- Null source pointers: the printers return a null pointer for one, and addresses are values here.
- HostDelimiter.FindNextHostDelimiter: the sum `i + 7` does not wrap around, so a start within seven of the largest index is not modelled.
- PrecomposedText.ComposeKeepsMeaningIff: for text out of order only the half about merges is stated, with one example of another loss; normalize passes no such text to compose.
- PrecomposedText.ComposeIsMaximalIff: for text out of order only the half about syllables is stated.
- Normalizer.FindComposition: the range is not empty and its keys ascend, as compose checks and the tables provide.
- Ipv6Parser.InetPton6WithMemmove: the text is passed by value, so where the source pointer stands after parsing, which only the prefix overloads use, is not modelled.
- Ipv6Parser.InetPton6ByHand: the same.
- Ipv6Parser.ReadText: the same. After a dotted quad it depends on webpp::inet_pton4, which moves the pointer and is not part of this model.
- The functions hex_digit_safe and webpp::inet_pton4 that the IPv6 parsers call are not part of the repository files modelled: the first is taken to give 0 to 15 for 0-9, a-f and A-F and a negative number otherwise, the second to be the dotted-quad parser of `benchmarks/ip/inet_pton4_parser.hpp`. Its statuses for bad endings and prefixes do not arise.
- The prefix overloads of inet_pton6: the prefix parser they call is not part of this model.
- AdaIpv6.ToCharsHex: stands for std::to_chars in base 16, which is not part of the repository.
- The shared bodies of the printers are written once (`WriteGroup`, `PutFirstColon`, `PutGap`) where the source repeats them, and so is the digit case of the two dotted-quad parsers.
- The other printers of the same files: v2::inet_ntop6, printers over sprintf, and webpp::v2::inet_ntop4, whose macro tests the wrong operand.
- The Ada ipv4 serializer, a dotted quad over std::to_chars.
- The tokenizer's expect and skip families, the internal allow_chars option, and advance_one of the first version: other quote semantics, unfinished in part.
- Calls after the first false, and changing delimiters or options between calls, beyond what the contract of `FullNext` says of any cursor position.
- Host parsers for IPv4, scheme ports, character sets and interleaved bits: finite domains or no common specification.
- Benchmark harness, random inputs, and the variants written with SIMD libraries.
