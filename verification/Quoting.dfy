// What quotes do to a token, as a grammar: plain characters, and bodies between two quotes in
// which a backslash protects the character after it. Each kind of stretch takes the cut along in
// the way the grammar says, so the grammar decides every cut.
module Quoting {
  import opened Tokens

  // What may stand between two quotes q: characters other than q and the backslash, and pairs of
  // a backslash and any character.
  predicate IsBody(q: char, s: string)
    decreases |s|
  {
    || s == []
    || (s[0] == '\\' && |s| > 1 && IsBody(q, s[2..]))
    || (s[0] != '\\' && s[0] != q && IsBody(q, s[1..]))
  }

  // A text in which neither a delimiter nor a quote stands; a backslash is like any other.
  predicate IsPlainText(sets: Sets, s: string) {
    forall i | 0 <= i < |s| :: s[i] !in sets.delims && s[i] !in sets.quotes
  }

  // A character that opens quotes: a delimiter would end the token instead, and a backslash could
  // never close what it opens.
  predicate IsQuote(sets: Sets, q: char) {
    q in sets.quotes && q !in sets.delims && q != '\\'
  }

  // ---------- the cut passes over plain text and over bodies ----------

  lemma {:induction false} PastPlainText(sets: Sets, input: string, i: nat, j: nat)
    requires i <= j <= |input| && IsPlainText(sets, input[i..j])
    ensures CutAt(sets, input, i, Plain) == CutAt(sets, input, j, Plain)
    decreases j - i
  {
    if i == j {
    } else {
      assert input[i..j][0] == input[i];
      assert input[i + 1..j] == input[i..j][1..];
      PastPlainText(sets, input, i + 1, j);
    }
  }

  lemma {:induction false} PastBody(sets: Sets, input: string, i: nat, j: nat, q: char)
    requires i <= j <= |input| && q != '\\' && IsBody(q, input[i..j])
    ensures CutAt(sets, input, i, Quoted(q, false)) == CutAt(sets, input, j, Quoted(q, false))
    decreases j - i
  {
    if i == j {
    } else {
      assert input[i..j][0] == input[i];
      var n := if input[i] == '\\' then 2 else 1;
      assert input[i + n..j] == input[i..j][n..];
      PastBody(sets, input, i + n, j, q);
    }
  }

  // Plain text, then a body between two quotes: the cut is where it is for what comes after,
  // delimiters in the body notwithstanding.
  lemma QuotedIsPassed(sets: Sets, input: string, i: nat, open: nat, close: nat)
    requires i <= open < close < |input|
    requires IsPlainText(sets, input[i..open]) && IsQuote(sets, input[open])
    requires IsBody(input[open], input[open + 1..close]) && input[close] == input[open]
    ensures CutAt(sets, input, i, Plain) == CutAt(sets, input, close + 1, Plain)
  {
    hide CutAt, IsBody, IsPlainText;
    var q := input[open];
    PastPlainText(sets, input, i, open);
    AtQuote(sets, input, open, q);
    PastBody(sets, input, open + 1, close, q);
    AtClosing(sets, input, close, q);
  }

  // Quotes that the input does not close keep the rest of it in the token, whether or not it ends
  // in the middle of a protected pair.
  lemma OpenIsWhole(sets: Sets, input: string, i: nat, open: nat, end: nat)
    requires i <= open < end <= |input|
    requires IsPlainText(sets, input[i..open]) && IsQuote(sets, input[open])
    requires IsBody(input[open], input[open + 1..end])
    requires end == |input| || (end + 1 == |input| && input[end] == '\\')
    ensures CutAt(sets, input, i, Plain) == |input|
  {
    hide CutAt, IsBody, IsPlainText;
    var q := input[open];
    PastPlainText(sets, input, i, open);
    AtQuote(sets, input, open, q);
    PastBody(sets, input, open + 1, end, q);
    AtEnd(sets, input, end, q);
  }

  lemma AtQuote(sets: Sets, input: string, i: nat, q: char)
    requires i < |input| && input[i] == q && IsQuote(sets, q)
    ensures CutAt(sets, input, i, Plain) == CutAt(sets, input, i + 1, Quoted(q, false))
  {
  }

  lemma AtClosing(sets: Sets, input: string, i: nat, q: char)
    requires i < |input| && input[i] == q && q != '\\'
    ensures CutAt(sets, input, i, Quoted(q, false)) == CutAt(sets, input, i + 1, Plain)
  {
  }

  lemma AtEnd(sets: Sets, input: string, i: nat, q: char)
    requires i == |input| || (i + 1 == |input| && input[i] == '\\')
    ensures CutAt(sets, input, i, Quoted(q, false)) == |input|
  {
  }

  // A backslash that opens quotes, where the caller allows it, protects what follows it and is
  // never read as the closing one.
  lemma {:induction false} BackslashNeverCloses(sets: Sets, input: string, i: nat, escaped: bool)
    requires i <= |input|
    ensures CutAt(sets, input, i, Quoted('\\', escaped)) == |input|
    decreases |input| - i
  {
    if i < |input| {
      BackslashNeverCloses(sets, input, i + 1, !escaped && input[i] == '\\');
    }
  }

  lemma BackslashIsWhole(sets: Sets, input: string, i: nat, open: nat)
    requires i <= open < |input| && IsPlainText(sets, input[i..open])
    requires input[open] == '\\' && '\\' in sets.quotes && '\\' !in sets.delims
    ensures CutAt(sets, input, i, Plain) == |input|
  {
    PastPlainText(sets, input, i, open);
    BackslashNeverCloses(sets, input, open + 1, false);
  }

  // A delimiter outside quotes, and the end of the input, end the token.
  lemma CutIsHere(sets: Sets, input: string, i: nat)
    requires i == |input| || (i < |input| && input[i] in sets.delims)
    ensures CutAt(sets, input, i, Plain) == i
  {
  }

  // ---------- quoting works ----------

  // s with a backslash before each q and each backslash.
  function Escaped(q: char, s: string): string {
    if s == [] then []
    else (if s[0] == q || s[0] == '\\' then ['\\', s[0]] else [s[0]]) + Escaped(q, s[1..])
  }

  lemma {:induction false} EscapedIsBody(q: char, s: string)
    ensures IsBody(q, Escaped(q, s))
  {
    if s == [] {
    } else {
      EscapedIsBody(q, s[1..]);
      var head := if s[0] == q || s[0] == '\\' then ['\\', s[0]] else [s[0]];
      assert Escaped(q, s)[|head|..] == Escaped(q, s[1..]);
    }
  }

  lemma {:induction false} NothingToEscape(q: char, s: string)
    requires forall i | 0 <= i < |s| :: s[i] != q && s[i] != '\\'
    ensures Escaped(q, s) == s
  {
    if s == [] {
    } else {
      NothingToEscape(q, s[1..]);
      assert s == [s[0]] + s[1..];
    }
  }

  // Any text at all can be quoted: escaped and put in quotes it is one token, which the end of the
  // input or a delimiter after it ends.
  lemma QuotedTextIsOneToken(sets: Sets, q: char, s: string, rest: string)
    requires IsQuote(sets, q) && (rest == [] || rest[0] in sets.delims)
    ensures var token := [q] + Escaped(q, s) + [q];
            Pieces(sets, token + rest, 0) == [Text(token)] + FromDelimiter(sets, token + rest, |token|)
  {
    hide CutAt, Escaped, IsBody, Pieces, FromDelimiter;
    var e := Escaped(q, s);
    var token := [q] + e + [q];
    var input := token + rest;
    EscapedIsBody(q, s);
    assert input[0..0] == [] && input[1..1 + |e|] == e && input[1 + |e|] == q && input[0..|token|] == token;
    QuotedIsPassed(sets, input, 0, 0, 1 + |e|);
    assert |rest| > 0 ==> input[|token|] == rest[0];
    CutIsHere(sets, input, |token|);
    PiecesStep(sets, input, 0);
  }

  // Without a closing quote the whole input is one token.
  lemma UnclosedIsOneToken(sets: Sets, q: char, s: string)
    requires IsQuote(sets, q)
    ensures var input := [q] + Escaped(q, s); Pieces(sets, input, 0) == [Text(input)]
  {
    hide CutAt, Escaped, IsBody, Pieces, FromDelimiter;
    var input := [q] + Escaped(q, s);
    EscapedIsBody(q, s);
    assert input[0..0] == [] && input[1..|input|] == Escaped(q, s) && input[0..|input|] == input;
    OpenIsWhole(sets, input, 0, 0, |input|);
    PiecesStep(sets, input, 0);
    DelimiterStep(sets, input, |input|);
  }

  // A protected quote, and after it a delimiter that does not count.
  lemma ProtectedQuoteSample()
    ensures Pieces(Sets({','}, {'"'}), "\"a\\\",b\",c", 0) == [Text("\"a\\\",b\""), Delimiter(','), Text("c")]
  {
    hide CutAt, Pieces, FromDelimiter;
    var sets, input := Sets({','}, {'"'}), "\"a\\\",b\",c";
    SampleIsBody();
    assert input[0..0] == [] && input[1..6] == "a\\\",b" && input[8..9] == "c";
    QuotedIsPassed(sets, input, 0, 0, 6);
    CutIsHere(sets, input, 7);
    PiecesStep(sets, input, 0);
    DelimiterStep(sets, input, 7);
    PastPlainText(sets, input, 8, 9);
    CutIsHere(sets, input, 9);
    PiecesStep(sets, input, 8);
    DelimiterStep(sets, input, 9);
    assert input[0..7] == "\"a\\\",b\"";
  }

  lemma PlainInBody(q: char, c: char, s: string)
    requires c != q && c != '\\' && IsBody(q, s)
    ensures IsBody(q, [c] + s)
  {
    assert ([c] + s)[1..] == s;
  }

  lemma PairInBody(q: char, c: char, s: string)
    requires IsBody(q, s)
    ensures IsBody(q, ['\\', c] + s)
  {
    assert (['\\', c] + s)[2..] == s;
  }

  lemma SampleIsBody()
    ensures IsBody('"', "a\\\",b")
  {
    hide IsBody;
    NothingIsBody('"');
    PlainInBody('"', 'b', []);
    PlainInBody('"', ',', ['b'] + []);
    PairInBody('"', '"', [','] + (['b'] + []));
    PlainInBody('"', 'a', ['\\', '"'] + ([','] + (['b'] + [])));
    assert "a\\\",b" == ['a'] + (['\\', '"'] + ([','] + (['b'] + [])));
  }

  lemma NothingIsBody(q: char)
    ensures IsBody(q, [])
  {
  }
}
