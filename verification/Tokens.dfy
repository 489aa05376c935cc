// What a tokenizer run is meant to produce: the input cut at every delimiter that stands
// outside quotes, and the part of that cut a caller asks for.
module Tokens {
  import opened Sequences

  // Where a scan stands: outside quotes, or inside quotes opened by `quote`, possibly right
  // after a backslash.
  datatype Mode = Plain | Quoted(quote: char, escaped: bool)

  datatype Token = Text(text: string) | Delimiter(mark: char)

  // The character sets a run is given.
  datatype Sets = Sets(delims: set<char>, quotes: set<char>)

  datatype Options = Options(returnDelims: bool, returnEmpty: bool)

  // The mode after reading a character that does not end the token.
  function Read(mode: Mode, quotes: set<char>, c: char): Mode {
    match mode
    case Plain => if c in quotes then Quoted(c, false) else Plain
    case Quoted(q, true) => Quoted(q, false)
    case Quoted(q, false) => if c == '\\' then Quoted(q, true) else if c == q then Plain else mode
  }

  function ReadAll(mode: Mode, quotes: set<char>, s: string): Mode
    decreases s
  {
    if s == [] then mode else ReadAll(Read(mode, quotes, s[0]), quotes, s[1..])
  }

  // A delimiter counts only outside quotes.
  predicate Stops(mode: Mode, delims: set<char>, c: char) {
    mode.Plain? && c in delims
  }

  // The index of the first delimiter that counts, at or after `i`, or the end of the input.
  function CutAt(sets: Sets, input: string, i: nat, mode: Mode): (end: nat)
    requires i <= |input|
    ensures i <= end <= |input|
    decreases |input| - i
  {
    if i == |input| || Stops(mode, sets.delims, input[i]) then i
    else CutAt(sets, input, i + 1, Read(mode, sets.quotes, input[i]))
  }

  // The input from `i`, cut at every delimiter that counts: texts and delimiters alternate.
  function Pieces(sets: Sets, input: string, i: nat): (tokens: seq<Token>)
    requires i <= |input|
    decreases |input| - i, 1
  {
    var end := CutAt(sets, input, i, Plain);
    [Text(input[i..end])] + FromDelimiter(sets, input, end)
  }

  // The same, for an `i` that stands on a delimiter or at the end.
  function FromDelimiter(sets: Sets, input: string, i: nat): (tokens: seq<Token>)
    requires i <= |input|
    decreases |input| - i, 0
  {
    if i == |input| then [] else [Delimiter(input[i])] + Pieces(sets, input, i + 1)
  }

  lemma PiecesStep(sets: Sets, input: string, i: nat)
    requires i <= |input|
    ensures var end := CutAt(sets, input, i, Plain);
      Pieces(sets, input, i) == [Text(input[i..end])] + FromDelimiter(sets, input, end)
  {
  }

  lemma DelimiterStep(sets: Sets, input: string, i: nat)
    requires i <= |input|
    ensures FromDelimiter(sets, input, i) ==
            if i == |input| then [] else [Delimiter(input[i])] + Pieces(sets, input, i + 1)
  {
  }

  predicate IsAsked(options: Options, token: Token) {
    match token
    case Text(text) => options.returnEmpty || text != []
    case Delimiter(_) => options.returnDelims
  }

  // The tokens a caller with these options is to see.
  function Asked(options: Options, tokens: seq<Token>): seq<Token> {
    if tokens == [] then []
    else (if IsAsked(options, tokens[0]) then [tokens[0]] else []) + Asked(options, tokens[1..])
  }

  // Delimiters are kept or dropped by one option; of the texts only the empty ones by the other.
  lemma AskedOfOne(options: Options, text: string, c: char)
    ensures Asked(options, [Delimiter(c)]) == if options.returnDelims then [Delimiter(c)] else []
    ensures Asked(options, [Text(text)]) == if text == [] && !options.returnEmpty then [] else [Text(text)]
  {
    assert [Delimiter(c)][1..] == [] && [Text(text)][1..] == [];
    assert Asked(options, []) == [];
  }

  function Spelling(token: Token): string {
    match token
    case Text(text) => text
    case Delimiter(c) => [c]
  }

  function Joined(tokens: seq<Token>): string {
    if tokens == [] then [] else Spelling(tokens[0]) + Joined(tokens[1..])
  }

  // No delimiter in `s` stands outside quotes.
  predicate HoldsNoDelimiter(sets: Sets, s: string, mode: Mode) {
    s == [] || (!Stops(mode, sets.delims, s[0]) && HoldsNoDelimiter(sets, s[1..], Read(mode, sets.quotes, s[0])))
  }

  predicate IsWellFormed(sets: Sets, token: Token) {
    match token
    case Text(text) => HoldsNoDelimiter(sets, text, Plain)
    case Delimiter(c) => c in sets.delims
  }

  // A split of some input: texts without delimiters of their own, each but the last with its
  // quotes closed and followed by one delimiter.
  predicate IsSplit(sets: Sets, tokens: seq<Token>) {
    && |tokens| > 0
    && tokens[0].Text?
    && IsWellFormed(sets, tokens[0])
    && (|tokens| > 1 ==>
          && ReadAll(Plain, sets.quotes, tokens[0].text) == Plain
          && tokens[1].Delimiter?
          && IsWellFormed(sets, tokens[1])
          && IsSplit(sets, tokens[2..]))
  }

  // The scan up to the cut passes no delimiter, and stops for a reason.
  lemma {:induction false} CutIsFirst(sets: Sets, input: string, i: nat, mode: Mode)
    requires i <= |input|
    ensures var end := CutAt(sets, input, i, mode);
      && HoldsNoDelimiter(sets, input[i..end], mode)
      && (end < |input| ==> Stops(ReadAll(mode, sets.quotes, input[i..end]), sets.delims, input[end]))
    decreases |input| - i
  {
    var end := CutAt(sets, input, i, mode);
    if i == |input| || Stops(mode, sets.delims, input[i]) {
      assert input[i..end] == [];
    } else {
      CutIsFirst(sets, input, i + 1, Read(mode, sets.quotes, input[i]));
      assert input[i..end][1..] == input[i + 1..end];
    }
  }

  // A delimiter-free stretch that the input follows with its end or a delimiter is the cut.
  lemma {:induction false} CutIsOnly(sets: Sets, input: string, i: nat, mode: Mode, end: nat)
    requires i <= end <= |input|
    requires HoldsNoDelimiter(sets, input[i..end], mode)
    requires end < |input| ==> Stops(ReadAll(mode, sets.quotes, input[i..end]), sets.delims, input[end])
    ensures CutAt(sets, input, i, mode) == end
    decreases end - i
  {
    if i < end {
      assert input[i..end][0] == input[i];
      assert input[i..end][1..] == input[i + 1..end];
      CutIsOnly(sets, input, i + 1, Read(mode, sets.quotes, input[i]), end);
    } else {
      assert input[i..end] == [];
    }
  }

  lemma JoinedStep(token: Token, rest: seq<Token>)
    ensures Joined([token] + rest) == Spelling(token) + Joined(rest)
    ensures Joined([]) == []
  {
    assert ([token] + rest)[1..] == rest;
  }

  // Cutting loses nothing.
  lemma {:induction false} PiecesSpellTheInput(sets: Sets, input: string, i: nat)
    requires i <= |input|
    ensures Joined(Pieces(sets, input, i)) == input[i..]
    decreases |input| - i
  {
    hide CutAt, Pieces, FromDelimiter, Joined;
    var end := CutAt(sets, input, i, Plain);
    PiecesStep(sets, input, i);
    DelimiterStep(sets, input, end);
    CutTail(input, i, end);
    JoinedStep(Text(input[i..end]), FromDelimiter(sets, input, end));
    if end < |input| {
      PiecesSpellTheInput(sets, input, end + 1);
      JoinedStep(Delimiter(input[end]), Pieces(sets, input, end + 1));
    }
  }

  // Cutting yields a split.
  lemma {:induction false} PiecesAreSplit(sets: Sets, input: string, i: nat)
    requires i <= |input|
    ensures IsSplit(sets, Pieces(sets, input, i))
    decreases |input| - i
  {
    hide CutAt, HoldsNoDelimiter, ReadAll, Pieces, FromDelimiter;
    var end := CutAt(sets, input, i, Plain);
    var tokens := Pieces(sets, input, i);
    CutIsFirst(sets, input, i, Plain);
    PiecesStep(sets, input, i);
    DelimiterStep(sets, input, end);
    if end < |input| {
      var rest := Pieces(sets, input, end + 1);
      PiecesAreSplit(sets, input, end + 1);
      assert tokens == [Text(input[i..end]), Delimiter(input[end])] + rest;
      assert tokens[2..] == rest;
    }
  }

  // A split has only one reading: it is the cut of the characters it spells.
  lemma {:induction false} SplitIsPieces(sets: Sets, tokens: seq<Token>, input: string, i: nat)
    requires i <= |input|
    requires IsSplit(sets, tokens)
    requires Joined(tokens) == input[i..]
    ensures tokens == Pieces(sets, input, i)
    decreases |tokens|
  {
    hide CutAt, HoldsNoDelimiter, ReadAll, Pieces, FromDelimiter, Joined;
    var text := tokens[0].text;
    var end := i + |text|;
    HeadOfConcat(tokens, []);
    JoinedStep(tokens[0], tokens[1..]);
    SliceOfConcat(input, i, text, Joined(tokens[1..]));
    PiecesStep(sets, input, i);
    DelimiterStep(sets, input, end);
    if |tokens| == 1 {
      assert end == |input|;
      CutIsOnly(sets, input, i, Plain, end);
    } else {
      TwoHeads(tokens);
      JoinedStep(tokens[1], tokens[2..]);
      SliceOfConcat(input, end, [tokens[1].mark], Joined(tokens[2..]));
      HeadOfSlice(input, end);
      CutIsOnly(sets, input, i, Plain, end);
      SplitIsPieces(sets, tokens[2..], input, end + 1);
    }
  }

  // The cut of an input is its one and only split.
  lemma PiecesAreTheSplit(sets: Sets, tokens: seq<Token>, input: string)
    ensures IsSplit(sets, tokens) && Joined(tokens) == input <==> tokens == Pieces(sets, input, 0)
  {
    assert input[0..] == input;
    PiecesAreSplit(sets, input, 0);
    PiecesSpellTheInput(sets, input, 0);
    if IsSplit(sets, tokens) && Joined(tokens) == input {
      SplitIsPieces(sets, tokens, input, 0);
    }
  }

  // Dropping empty texts does not change what the tokens spell.
  lemma {:induction false} AskedSpellsTheSame(options: Options, tokens: seq<Token>)
    requires options.returnDelims
    ensures Joined(Asked(options, tokens)) == Joined(tokens)
  {
    if tokens == [] {
    } else {
      AskedSpellsTheSame(options, tokens[1..]);
      var rest := Asked(options, tokens[1..]);
      if IsAsked(options, tokens[0]) {
        assert ([tokens[0]] + rest)[1..] == rest;
      } else {
        assert [] + rest == rest;
      }
    }
  }

  lemma {:induction false} SplitIsWellFormed(sets: Sets, tokens: seq<Token>, token: Token)
    requires IsSplit(sets, tokens)
    requires token in tokens
    ensures IsWellFormed(sets, token)
    decreases |tokens|
  {
    if token != tokens[0] && token != tokens[1] {
      assert token in tokens[2..];
      SplitIsWellFormed(sets, tokens[2..], token);
    }
  }

  lemma {:induction false} AskedAreTokens(options: Options, tokens: seq<Token>, token: Token)
    requires token in Asked(options, tokens)
    ensures token in tokens && IsAsked(options, token)
  {
    if token !in (if IsAsked(options, tokens[0]) then [tokens[0]] else []) {
      AskedAreTokens(options, tokens[1..], token);
    }
  }

  lemma AskedNothing(options: Options)
    ensures Asked(options, []) == []
  {
  }

  lemma AskedStep(options: Options, token: Token, rest: seq<Token>)
    ensures Asked(options, [token] + rest) ==
            if IsAsked(options, token) then [token] + Asked(options, rest) else Asked(options, rest)
    ensures var asked := Asked(options, [token] + rest);
      IsAsked(options, token) ==> asked[0] == token && asked[1..] == Asked(options, rest)
  {
    assert ([token] + rest)[1..] == rest;
    assert [] + Asked(options, rest) == Asked(options, rest);
  }

  lemma {:induction false} AskedConcat(options: Options, a: seq<Token>, b: seq<Token>)
    ensures Asked(options, a + b) == Asked(options, a) + Asked(options, b)
  {
    if a == [] {
      assert a + b == b;
    } else {
      hide Asked, IsAsked;
      AskedConcat(options, a[1..], b);
      AskedStep(options, a[0], a[1..]);
      AskedStep(options, a[0], a[1..] + b);
      HeadOfConcat(a, b);
      ConcatAssociates([a[0]], Asked(options, a[1..]), Asked(options, b));
    }
  }

  // Asking for everything drops nothing.
  lemma {:induction false} AskedForAll(tokens: seq<Token>)
    ensures Asked(Options(true, true), tokens) == tokens
  {
    if tokens == [] {
    } else {
      AskedForAll(tokens[1..]);
    }
  }

  // With delimiters returned, a run tiles the input, whatever else is asked for.
  lemma RunTilesTheInput(sets: Sets, options: Options, input: string)
    requires options.returnDelims
    ensures Joined(Asked(options, Pieces(sets, input, 0))) == input
  {
    AskedSpellsTheSame(options, Pieces(sets, input, 0));
    PiecesSpellTheInput(sets, input, 0);
    assert input[0..] == input;
  }

  // Every token of a run is one delimiter, or a text whose delimiters are all quoted, and it
  // is of a kind the caller asked for.
  lemma RunTokensAreWellFormed(sets: Sets, options: Options, input: string, token: Token)
    requires token in Asked(options, Pieces(sets, input, 0))
    ensures IsWellFormed(sets, token) && IsAsked(options, token)
  {
    AskedAreTokens(options, Pieces(sets, input, 0), token);
    PiecesAreSplit(sets, input, 0);
    SplitIsWellFormed(sets, Pieces(sets, input, 0), token);
  }

  // What a run owes its caller.
  lemma RunKeepsItsPromise(sets: Sets, options: Options, input: string)
    ensures var tokens := Asked(options, Pieces(sets, input, 0));
      && (options.returnDelims ==> Joined(tokens) == input)
      && (forall token :: token in tokens ==> IsWellFormed(sets, token) && IsAsked(options, token))
      && (options.returnDelims && options.returnEmpty ==> IsSplit(sets, tokens))
  {
    hide *;
    var tokens := Asked(options, Pieces(sets, input, 0));
    if options.returnDelims {
      RunTilesTheInput(sets, options, input);
    }
    forall token | token in tokens ensures IsWellFormed(sets, token) && IsAsked(options, token) {
      RunTokensAreWellFormed(sets, options, input, token);
    }
    if options.returnDelims && options.returnEmpty {
      AskedForAll(Pieces(sets, input, 0));
      PiecesAreSplit(sets, input, 0);
    }
  }

  // Every text but the last closes the quotes it opens.
  predicate ClosesQuotes(sets: Sets, tokens: seq<Token>) {
    forall k | 0 <= k < |tokens| - 1 && tokens[k].Text? :: ReadAll(Plain, sets.quotes, tokens[k].text) == Plain
  }

  lemma {:induction false} NoDelimiterAtAll(sets: Sets, s: string, mode: Mode)
    requires forall k | 0 <= k < |s| :: s[k] !in sets.delims
    ensures HoldsNoDelimiter(sets, s, mode)
    decreases |s|
  {
    if s == [] {
    } else {
      NoDelimiterAtAll(sets, s[1..], Read(mode, sets.quotes, s[0]));
    }
  }

  lemma {:induction false} UnquotedHoldsNone(delims: set<char>, s: string)
    requires HoldsNoDelimiter(Sets(delims, {}), s, Plain)
    ensures forall k | 0 <= k < |s| :: s[k] !in delims
    decreases |s|
  {
    if s == [] {
    } else {
      UnquotedHoldsNone(delims, s[1..]);
      assert forall k | 1 <= k < |s| :: s[k] == s[1..][k - 1];
    }
  }

  lemma ClosesQuotesStep(sets: Sets, tokens: seq<Token>)
    requires |tokens| > 1 && tokens[0].Text? && tokens[1].Delimiter?
    ensures ClosesQuotes(sets, tokens) <==>
            (ReadAll(Plain, sets.quotes, tokens[0].text) == Plain && ClosesQuotes(sets, tokens[2..]))
  {
    hide ReadAll;
    assert forall k | 0 <= k < |tokens| - 2 :: tokens[2..][k] == tokens[k + 2];
    if ClosesQuotes(sets, tokens[2..]) && ReadAll(Plain, sets.quotes, tokens[0].text) == Plain {
      forall k | 0 <= k < |tokens| - 1 && tokens[k].Text? ensures ReadAll(Plain, sets.quotes, tokens[k].text) == Plain {
        if k > 1 {
          assert tokens[k] == tokens[2..][k - 2];
        }
      }
    }
  }

  // A split that takes no notice of quotes is a split exactly when its texts close them.
  lemma {:induction false} UnquotedSplit(sets: Sets, tokens: seq<Token>)
    requires IsSplit(sets.(quotes := {}), tokens)
    ensures IsSplit(sets, tokens) <==> ClosesQuotes(sets, tokens)
    decreases |tokens|
  {
    hide ReadAll, HoldsNoDelimiter, ClosesQuotes;
    UnquotedHoldsNone(sets.delims, tokens[0].text);
    NoDelimiterAtAll(sets, tokens[0].text, Plain);
    if |tokens| > 1 {
      ClosesQuotesStep(sets, tokens);
      UnquotedSplit(sets, tokens[2..]);
    } else {
      OneClosesQuotes(sets, tokens);
    }
  }

  lemma OneClosesQuotes(sets: Sets, tokens: seq<Token>)
    requires |tokens| == 1
    ensures ClosesQuotes(sets, tokens)
  {
  }

  // Quotes change nothing exactly when every field of the input but the last closes the quotes it
  // opens.
  lemma QuotesChangeNothingIff(sets: Sets, input: string)
    ensures var fields := Pieces(sets.(quotes := {}), input, 0);
      Pieces(sets, input, 0) == fields <==> ClosesQuotes(sets, fields)
  {
    hide Pieces, IsSplit, Joined, ClosesQuotes;
    var plain := sets.(quotes := {});
    var fields := Pieces(plain, input, 0);
    PiecesAreTheSplit(plain, fields, input);
    PiecesAreTheSplit(sets, fields, input);
    UnquotedSplit(sets, fields);
  }

  // The null characters that the overload takes for quotes hide the delimiter between them.
  lemma NullsAreQuotes()
    ensures var input := "\0,\0";
      && Pieces(Sets({','}, {'\0'}), input, 0) == [Text(input)]
      && Pieces(Sets({','}, {}), input, 0) == [Text("\0"), Delimiter(','), Text("\0")]
  {
    var input := "\0,\0";
    assert input[0..3] == input && input[0..1] == "\0" && input[2..3] == "\0";
    assert Read(Plain, {'\0'}, '\0') == Quoted('\0', false);
    assert input[1..] == ",\0" && input[1..][1..] == "\0" && input[1..][1..][1..] == [];
    CutIsOnly(Sets({','}, {'\0'}), input, 0, Plain, 3);
    UnquotedCut({','}, input, 0, 1);
    UnquotedCut({','}, input, 2, 3);
    assert FromDelimiter(Sets({','}, {}), input, 1) == [Delimiter(',')] + Pieces(Sets({','}, {}), input, 2);
  }

  // ----- Fields: no quotes, neither delimiters nor empty texts -----

  const ONLY_TEXTS := Options(false, false)

  function Fields(delims: set<char>, input: string, i: nat): seq<Token>
    requires i <= |input|
  {
    Asked(ONLY_TEXTS, Pieces(Sets(delims, {}), input, i))
  }

  predicate AllDelimiters(delims: set<char>, input: string, lo: nat, hi: nat)
    requires lo <= hi <= |input|
  {
    forall k :: lo <= k < hi ==> input[k] in delims
  }

  // The maximal delimiter-free piece that only delimiters separate from `i`.
  predicate IsNextField(delims: set<char>, input: string, i: nat, begin: nat, end: nat)
    requires i <= |input|
  {
    && i <= begin < end <= |input|
    && AllDelimiters(delims, input, i, begin)
    && (forall k :: begin <= k < end ==> input[k] !in delims)
    && (end == |input| || input[end] in delims)
  }

  // Without quotes the cut is the next delimiter.
  lemma {:induction false} UnquotedCut(delims: set<char>, input: string, i: nat, end: nat)
    requires i <= end <= |input|
    requires forall k :: i <= k < end ==> input[k] !in delims
    requires end == |input| || input[end] in delims
    ensures CutAt(Sets(delims, {}), input, i, Plain) == end
    decreases end - i
  {
    if i < end {
      UnquotedCut(delims, input, i + 1, end);
    }
  }

  // Leading delimiters leave no field behind.
  lemma {:induction false} FieldsSkipDelimiters(delims: set<char>, input: string, i: nat, j: nat)
    requires i <= j <= |input|
    requires AllDelimiters(delims, input, i, j)
    ensures Fields(delims, input, i) == Fields(delims, input, j)
    decreases j - i
  {
    if i < j {
      var sets := Sets(delims, {});
      UnquotedCut(delims, input, i, i);
      var rest := Pieces(sets, input, i + 1);
      assert input[i..i] == [];
      assert Pieces(sets, input, i) == [Text([]), Delimiter(input[i])] + rest;
      AskedConcat(ONLY_TEXTS, [Text([]), Delimiter(input[i])], rest);
      FieldsSkipDelimiters(delims, input, i + 1, j);
    }
  }

  lemma FieldsEnd(delims: set<char>, input: string, i: nat)
    requires i <= |input|
    requires AllDelimiters(delims, input, i, |input|)
    ensures Fields(delims, input, i) == []
  {
    FieldsSkipDelimiters(delims, input, i, |input|);
    assert input[|input|..|input|] == [];
    var nothing: Token := Text([]);
    assert Pieces(Sets(delims, {}), input, |input|) == [nothing];
    assert [nothing][1..] == [];
    assert !IsAsked(ONLY_TEXTS, nothing);
    assert Asked(ONLY_TEXTS, [nothing]) == [] + Asked(ONLY_TEXTS, []) == [];
  }

  lemma FieldsTakeNext(delims: set<char>, input: string, i: nat, begin: nat, end: nat)
    requires i <= |input|
    requires IsNextField(delims, input, i, begin, end)
    ensures Fields(delims, input, i) == [Text(input[begin..end])] + Fields(delims, input, end)
  {
    var sets := Sets(delims, {});
    FieldsSkipDelimiters(delims, input, i, begin);
    UnquotedCut(delims, input, begin, end);
    var after := FromDelimiter(sets, input, end);
    AskedConcat(ONLY_TEXTS, [Text(input[begin..end])], after);
    UnquotedCut(delims, input, end, end);
    assert input[end..end] == [];
    AskedConcat(ONLY_TEXTS, [Text([])], after);
  }
}
