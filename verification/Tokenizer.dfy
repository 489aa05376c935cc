// The tokenizer: a cursor over its input, moved by `next`.
module Tokenizer {
  import opened Tokens

  // What one call of `next` remembers about quotes while it reads a token.
  class AdvanceState {
    var quoteChar: char
    var inQuote: bool
    var inEscape: bool

    constructor ()
      ensures Valid() && View() == Plain
    {
      quoteChar, inQuote, inEscape := '\0', false, false;
    }

    predicate Valid()
      reads this
    {
      inEscape ==> inQuote
    }

    function View(): Mode
      reads this
    {
      if inQuote then Quoted(quoteChar, inEscape) else Plain
    }

    // Whether `c` belongs to the token being read; a delimiter outside quotes does not.
    method AdvanceOne(sets: Sets, c: char) returns (belongs: bool)
      requires Valid()
      modifies this
      ensures Valid()
      ensures belongs == !Stops(old(View()), sets.delims, c)
      ensures View() == if belongs then Read(old(View()), sets.quotes, c) else old(View())
    {
      if inQuote {
        if inEscape {
          inEscape := false;
        } else if c == '\\' {
          inEscape := true;
        } else if c == quoteChar {
          inQuote := false;
        }
      } else {
        if c in sets.delims {
          return false;
        }
        quoteChar := c;
        inQuote := c in sets.quotes;
      }
      return true;
    }
  }

  class Tokenizer {
    const input: string
    var tokenBegin: nat
    var tokenEnd: nat
    var isDelim: bool

    constructor (input: string)
      ensures this.input == input
      ensures Valid() && tokenBegin == tokenEnd == 0 && isDelim
    {
      this.input := input;
      tokenBegin, tokenEnd, isDelim := 0, 0, true;
    }

    predicate Valid()
      reads this
    {
      tokenEnd <= |input|
    }

    // The token under the cursor, of the kind `isDelim` says.
    ghost predicate Holds(token: Token)
      reads this
    {
      && tokenBegin <= tokenEnd <= |input|
      && token.Delimiter? == isDelim
      && Spelling(token) == input[tokenBegin..tokenEnd]
    }

    // The tokens the cursor has yet to reach.
    ghost function Ahead(sets: Sets): seq<Token>
      reads this
      requires Valid()
    {
      if isDelim then Pieces(sets, input, tokenEnd) else FromDelimiter(sets, input, tokenEnd)
    }

    // Moves to the next token the options ask for; false when there is none.
    method FullNext(sets: Sets, options: Options) returns (found: bool)
      requires Valid()
      modifies this
      ensures Valid()
      ensures var asked := Asked(options, old(Ahead(sets)));
        && found == (asked != [])
        && (found ==> Holds(asked[0]) && Asked(options, Ahead(sets)) == asked[1..])
      ensures !found ==> tokenBegin == tokenEnd == |input| && isDelim
    {
      hide Asked, CutAt, Pieces, FromDelimiter;
      var state := new AdvanceState();
      while true
        invariant Valid() && state.Valid()
        invariant state.View() == Plain
        invariant Asked(options, Ahead(sets)) == Asked(options, old(Ahead(sets)))
        invariant fresh(state)
        decreases |input| - tokenEnd, isDelim
      {
        if isDelim {
          isDelim := false;
          tokenBegin := tokenEnd;
          PiecesStep(sets, input, tokenBegin);
          SlurpToken(sets, state);
          AskedStep(options, Text(input[tokenBegin..tokenEnd]), Ahead(sets));
          assert Holds(Text(input[tokenBegin..tokenEnd]));
          if options.returnEmpty {
            return true;
          } else if tokenBegin != tokenEnd {
            return true;
          }
        }
        isDelim := true;
        tokenBegin := tokenEnd;
        DelimiterStep(sets, input, tokenBegin);
        if tokenEnd == |input| {
          AskedNothing(options);
          return false;
        }
        tokenEnd := tokenEnd + 1;
        AskedStep(options, Delimiter(input[tokenBegin]), Ahead(sets));
        assert Holds(Delimiter(input[tokenBegin]));
        if options.returnDelims {
          return true;
        }
      }
    }

    // Slurps all characters that belong to the token.
    method SlurpToken(sets: Sets, state: AdvanceState)
      requires Valid() && state.Valid() && state.View() == Plain
      modifies this`tokenEnd, state
      ensures tokenEnd == CutAt(sets, input, old(tokenEnd), Plain)
      ensures state.Valid()
      ensures tokenEnd < |input| ==> state.View() == Plain
    {
      ghost var from := tokenEnd;
      while tokenEnd != |input|
        invariant Valid() && state.Valid()
        invariant CutAt(sets, input, tokenEnd, state.View()) == CutAt(sets, input, from, Plain)
        decreases |input| - tokenEnd
      {
        var belongs := state.AdvanceOne(sets, input[tokenEnd]);
        if !belongs {
          break;
        }
        tokenEnd := tokenEnd + 1;
      }
    }

    // Moves to the next field; this version leaves `tokenEnd` behind when there is none.
    method QuickNextV2(delims: set<char>) returns (found: bool)
      requires Valid()
      modifies this
      ensures Valid()
      ensures found ==> IsNextField(delims, input, old(tokenEnd), tokenBegin, tokenEnd) && !isDelim
      ensures !found ==>
        && AllDelimiters(delims, input, old(tokenEnd), |input|)
        && tokenBegin == |input| && tokenEnd == old(tokenEnd) && isDelim
    {
      isDelim := false;
      tokenBegin := tokenEnd;
      while true
        invariant tokenEnd == old(tokenEnd) <= tokenBegin <= |input|
        invariant !isDelim
        invariant AllDelimiters(delims, input, tokenEnd, tokenBegin)
        decreases |input| - tokenBegin
      {
        if tokenBegin == |input| {
          isDelim := true;
          return false;
        }
        if input[tokenBegin] !in delims {
          break;
        }
        tokenBegin := tokenBegin + 1;
      }
      tokenEnd := tokenBegin;
      tokenEnd := tokenEnd + 1;
      SlurpField(delims);
      return true;
    }

    // Moves to the next field; this version takes `tokenEnd` along.
    method QuickNextV1(delims: set<char>) returns (found: bool)
      requires Valid()
      modifies this
      ensures Valid()
      ensures found ==> IsNextField(delims, input, old(tokenEnd), tokenBegin, tokenEnd) && !isDelim
      ensures !found ==>
        && AllDelimiters(delims, input, old(tokenEnd), |input|)
        && tokenBegin == tokenEnd == |input| && isDelim
    {
      isDelim := false;
      while true
        invariant old(tokenEnd) <= tokenEnd <= |input|
        invariant !isDelim
        invariant AllDelimiters(delims, input, old(tokenEnd), tokenEnd)
        decreases |input| - tokenEnd
      {
        tokenBegin := tokenEnd;
        if tokenEnd == |input| {
          isDelim := true;
          return false;
        }
        tokenEnd := tokenEnd + 1;
        if input[tokenBegin] !in delims {
          break;
        }
      }
      SlurpField(delims);
      return true;
    }

    method SlurpField(delims: set<char>)
      requires tokenBegin < tokenEnd <= |input|
      requires forall k :: tokenBegin <= k < tokenEnd ==> input[k] !in delims
      modifies this`tokenEnd
      ensures old(tokenEnd) <= tokenEnd <= |input|
      ensures forall k :: tokenBegin <= k < tokenEnd ==> input[k] !in delims
      ensures tokenEnd == |input| || input[tokenEnd] in delims
    {
      while tokenEnd != |input| && input[tokenEnd] !in delims
        invariant old(tokenEnd) <= tokenEnd <= |input|
        invariant forall k :: tokenBegin <= k < tokenEnd ==> input[k] !in delims
      {
        tokenEnd := tokenEnd + 1;
      }
    }
  }

  // ----- Whole runs: the loop `while (t.next(...))` of the class's own examples -----

  // A run from a fresh tokenizer up to the first false yields what was asked for, in order.
  method CollectFull(input: string, sets: Sets, options: Options) returns (tokens: seq<Token>)
    ensures tokens == Asked(options, Pieces(sets, input, 0))
    ensures options.returnDelims ==> Joined(tokens) == input
    ensures forall token :: token in tokens ==> IsWellFormed(sets, token) && IsAsked(options, token)
    ensures options.returnDelims && options.returnEmpty ==> IsSplit(sets, tokens)
  {
    hide Asked, IsAsked, Pieces, FromDelimiter, Joined, IsWellFormed, IsSplit;
    var t := new Tokenizer(input);
    ghost var all := Asked(options, Pieces(sets, input, 0));
    tokens := [];
    while true
      invariant fresh(t) && t.input == input && t.Valid()
      invariant all == tokens + Asked(options, t.Ahead(sets))
      decreases |Asked(options, t.Ahead(sets))|
    {
      ghost var ahead := Asked(options, t.Ahead(sets));
      var found := t.FullNext(sets, options);
      if !found {
        break;
      }
      var token := if t.isDelim then Delimiter(t.input[t.tokenBegin]) else Text(t.input[t.tokenBegin..t.tokenEnd]);
      TokenIsRead(t, ahead[0]);
      tokens := tokens + [token];
    }
    RunKeepsItsPromise(sets, options, input);
  }

  lemma TokenIsRead(t: Tokenizer, token: Token)
    requires t.Holds(token)
    ensures t.isDelim ==> t.tokenBegin < |t.input| && token == Delimiter(t.input[t.tokenBegin])
    ensures !t.isDelim ==> token == Text(t.input[t.tokenBegin..t.tokenEnd])
  {
    if t.isDelim {
      assert Spelling(token)[0] == token.mark;
    }
  }

  // Without quotes and options, the first version, the second version and the full algorithm
  // all yield the fields of the input.
  method CollectQuickV1(input: string, delims: set<char>) returns (tokens: seq<Token>)
    ensures tokens == Fields(delims, input, 0)
  {
    var t := new Tokenizer(input);
    tokens := [];
    while true
      invariant fresh(t) && t.input == input && t.Valid()
      invariant Fields(delims, input, 0) == tokens + Fields(delims, input, t.tokenEnd)
      decreases |input| - t.tokenEnd
    {
      ghost var from := t.tokenEnd;
      var found := t.QuickNextV1(delims);
      if !found {
        FieldsEnd(delims, input, from);
        break;
      }
      FieldsTakeNext(delims, input, from, t.tokenBegin, t.tokenEnd);
      tokens := tokens + [Text(t.input[t.tokenBegin..t.tokenEnd])];
    }
  }

  method CollectQuickV2(input: string, delims: set<char>) returns (tokens: seq<Token>)
    ensures tokens == Fields(delims, input, 0)
  {
    var t := new Tokenizer(input);
    tokens := [];
    while true
      invariant fresh(t) && t.input == input && t.Valid()
      invariant Fields(delims, input, 0) == tokens + Fields(delims, input, t.tokenEnd)
      decreases |input| - t.tokenEnd
    {
      ghost var from := t.tokenEnd;
      var found := t.QuickNextV2(delims);
      if !found {
        FieldsEnd(delims, input, from);
        break;
      }
      FieldsTakeNext(delims, input, from, t.tokenBegin, t.tokenEnd);
      tokens := tokens + [Text(t.input[t.tokenBegin..t.tokenEnd])];
    }
  }
}
