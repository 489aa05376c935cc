// Which characters stand for which digits: reading takes both cases of the letters, in order;
// printing uses the small ones (section 4.3 of RFC 5952).
module Ipv6Letters {
  import opened Wrappers
  import opened Ipv4
  import opened Ipv6Text
  import opened Ipv6Printing
  import opened AdaIpv6

  predicate IsSmallDigit(c: char) {
    '0' <= c <= '9' || 'a' <= c <= 'f'
  }

  predicate IsCapital(c: char) {
    'A' <= c <= 'F'
  }

  function Small(c: char): char {
    if c == 'A' then 'a' else if c == 'B' then 'b' else if c == 'C' then 'c'
    else if c == 'D' then 'd' else if c == 'E' then 'e' else if c == 'F' then 'f' else c
  }

  // ---------- the digits ----------

  // Sixteen characters, ascending, are digits, and so are the capitals of the last six, which are
  // worth the same. Values lie from 0 to 15, so this leaves no choice.
  lemma DigitsAscend(a: char, b: char)
    ensures HexDigitSafe(a) >= 0 <==> IsSmallDigit(a) || IsCapital(a)
    ensures HexDigitSafe(Small(a)) == HexDigitSafe(a)
    ensures IsSmallDigit(a) && IsSmallDigit(b) && a < b ==> HexDigitSafe(a) < HexDigitSafe(b) <= 15
  {
  }

  // Groups are read in network order: four digits make two octets, the first two the first.
  lemma GroupIsInNetworkOrder(s: string)
    requires |s| == 4 && IsHex(s)
    ensures GroupOctets(s) ==
            [16 * HexDigitSafe(s[0]) + HexDigitSafe(s[1]), 16 * HexDigitSafe(s[2]) + HexDigitSafe(s[3])]
  {
    hide HexDigitSafe;
    assert s[..3][..2] == s[..2] && s[..3][2] == s[2] && s[..2][..1] == s[..1] && s[..1][..0] == [];
    assert HexValue(s[..1]) == HexDigitSafe(s[0]);
    assert HexValue(s[..2]) == 16 * HexDigitSafe(s[0]) + HexDigitSafe(s[1]);
    assert HexValue(s[..3]) == HexValue(s[..2]) * 16 + HexDigitSafe(s[2]);
    assert HexValue(s) == HexValue(s[..3]) * 16 + HexDigitSafe(s[3]);
  }

  // ---------- reading takes no notice of case ----------

  // r is s with some of its capitals made small.
  ghost predicate SameLetters(r: string, s: string) {
    |r| == |s| && forall i | 0 <= i < |s| :: r[i] == s[i] || r[i] == Small(s[i])
  }

  lemma SameLetterReadsSame(a: char, b: char)
    requires a == b || a == Small(b)
    ensures HexDigitSafe(a) == HexDigitSafe(b) && IsDigit(a) == IsDigit(b)
    ensures IsDigit(a) ==> a == b
    ensures HexDigitSafe(a) < 0 ==> a == b
  {
  }

  lemma {:induction false} HexValueIgnoresCase(r: string, s: string)
    requires SameLetters(r, s) && IsHex(s)
    ensures IsHex(r) && HexValue(r) == HexValue(s)
    decreases |s|
  {
    hide HexDigitSafe, Small;
    forall i | 0 <= i < |s| ensures HexDigitSafe(r[i]) == HexDigitSafe(s[i]) {
      SameLetterReadsSame(r[i], s[i]);
    }
    if s == [] {
    } else {
      HexValueIgnoresCase(r[..|r| - 1], s[..|s| - 1]);
    }
  }

  lemma {:induction false} RunIgnoresCase(p: Progress, r: string, s: string)
    requires 1 <= |p.octets| <= 4 && SameLetters(r, s)
    ensures Run(p, r) == Run(p, s)
    decreases |s|
  {
    hide Small, HexDigitSafe;
    if s == [] {
    } else {
      var n, c := |p.octets| - 1, s[0];
      SameLetterReadsSame(r[0], c);
      DotIsNoLetter(r[0], c);
      assert SameLetters(r[1..], s[1..]);
      if IsDigit(c) {
        var value := p.octets[n] * 10 + DigitValue(c);
        if value <= 255 {
          RunIgnoresCase(Progress(p.octets[n := value], true), r[1..], s[1..]);
        }
      } else if c == '.' && |p.octets| < 4 {
        RunIgnoresCase(Progress(p.octets + [0], false), r[1..], s[1..]);
      }
    }
  }

  lemma DotIsNoLetter(a: char, b: char)
    requires a == b || a == Small(b)
    ensures a == '.' <==> b == '.'
  {
  }

  lemma SameTail(r: string, s: string)
    requires SameLetters(r, s) && s != []
    ensures SameLetters(r[1..], s[1..]) && (r[0] == s[0] || r[0] == Small(s[0]))
  {
  }

  lemma SameConcat(a: string, b: string, r: string, s: string)
    requires SameLetters(a, b) && SameLetters(r, s)
    ensures SameLetters(a + r, b + s)
  {
  }

  lemma FinishIgnoresCase(out: seq<Octet>, colon: Option<nat>, a: string, b: string, slash: bool)
    requires IsState(State(out, colon, b)) && SameLetters(a, b)
    ensures IsState(State(out, colon, a)) && GroupOctets(a) == GroupOctets(b)
    ensures Finish(State(out, colon, a), slash) == Finish(State(out, colon, b), slash)
  {
    hide Expanded, HexValue;
    HexValueIgnoresCase(a, b);
  }

  lemma {:induction false} ScanIgnoresCase(
    out: seq<Octet>, colon: Option<nat>, a: string, b: string, r: string, s: string)
    requires IsState(State(out, colon, b)) && SameLetters(a, b) && SameLetters(r, s)
    ensures IsState(State(out, colon, a))
    ensures Scan(State(out, colon, a), r) == Scan(State(out, colon, b), s)
    decreases |s|
  {
    hide HexDigitSafe, Small, Finish, GroupOctets, HexValue, IsHex, SameLetters, Run;
    FinishIgnoresCase(out, colon, a, b, false);
    FinishIgnoresCase(out, colon, a, b, true);
    SameLength(a, b);
    SameLength(r, s);
    if s == [] {
    } else {
      SameTail(r, s);
      SameLetterReadsSame(r[0], s[0]);
      if HexDigitSafe(s[0]) >= 0 {
        if |b| < 4 {
          LongerToken(a, b, r[0], s[0]);
          ScanIgnoresCase(out, colon, a + [r[0]], b + [s[0]], r[1..], s[1..]);
        }
      } else if s[0] == ':' {
        NothingIsSame();
        if b == [] {
          if colon.None? {
            ScanIgnoresCase(out, Some(|out|), [], [], r[1..], s[1..]);
          }
        } else if |out| + 2 <= 16 {
          NothingIsHex();
          ScanIgnoresCase(out + GroupOctets(b), colon, [], [], r[1..], s[1..]);
        }
      } else if s[0] == '.' {
        SameConcat(a, b, r, s);
        RunIgnoresCase(Progress([0], false), a + r, b + s);
      }
    }
  }

  lemma SameLength(r: string, s: string)
    requires SameLetters(r, s)
    ensures |r| == |s|
  {
  }

  lemma NothingIsSame()
    ensures SameLetters([], [])
  {
  }

  lemma NothingIsHex()
    ensures IsHex([])
  {
  }

  lemma LongerToken(a: string, b: string, x: char, y: char)
    requires SameLetters(a, b) && (x == y || x == Small(y)) && IsHex(b) && HexDigitSafe(y) >= 0
    ensures SameLetters(a + [x], b + [y]) && IsHex(b + [y])
  {
  }

  // A text and the same text with capitals made small are read alike, failures included.
  lemma ParseIgnoresCase(r: string, s: string)
    requires SameLetters(r, s)
    ensures Parse6(r) == Parse6(s)
  {
    hide Scan, HexDigitSafe;
    if s != [] {
      ColonIsNoLetter(r, s, 0);
      ScanIgnoresCase([], None, [], [], r, s);
      SameTail(r, s);
      ScanIgnoresCase([], None, [], [], r[1..], s[1..]);
      if |s| > 1 {
        ColonIsNoLetter(r, s, 1);
      }
    }
  }

  lemma ColonIsNoLetter(r: string, s: string, i: nat)
    requires SameLetters(r, s) && i < |s|
    ensures r[i] == ':' <==> s[i] == ':'
  {
  }

  // ---------- printing uses the small letters ----------

  predicate IsPrinted(c: char) {
    IsSmallDigit(c) || c == ':' || c == '.'
  }

  ghost predicate AllPrinted(s: string) {
    forall i | 0 <= i < |s| :: IsPrinted(s[i])
  }

  ghost predicate GroupsPrinted(g: seq<string>) {
    forall i | 0 <= i < |g| :: AllPrinted(g[i])
  }

  lemma {:induction false} HexTextIsSmall(n: nat)
    ensures AllPrinted(HexText(n))
  {
    HexCharIsSmall(n % 16);
    if n < 16 {
    } else {
      HexTextIsSmall(n / 16);
    }
  }

  lemma HexCharIsSmall(d: nat)
    requires d < 16
    ensures IsPrinted(HexChar(d))
  {
  }

  lemma {:induction false} DecimalIsPrinted(n: nat)
    ensures AllPrinted(Decimal(n))
  {
    if n < 10 {
    } else {
      DecimalIsPrinted(n / 10);
    }
  }

  lemma PrintedConcat(a: string, b: string)
    requires AllPrinted(a) && AllPrinted(b)
    ensures AllPrinted(a + b)
  {
  }

  lemma DottedIsPrinted(o: seq<Octet>)
    requires |o| == 4
    ensures AllPrinted(Dotted(o))
  {
    hide Decimal;
    DecimalIsPrinted(o[0]);
    DecimalIsPrinted(o[1]);
    DecimalIsPrinted(o[2]);
    DecimalIsPrinted(o[3]);
  }

  lemma {:induction false} JoinedIsPrinted(g: seq<string>, quad: seq<Octet>)
    requires GroupsPrinted(g) && (quad == [] || |quad| == 4)
    ensures AllPrinted(Joined(g, quad))
  {
    hide Dotted;
    if g == [] {
      if quad != [] {
        DottedIsPrinted(quad);
      }
    } else {
      assert AllPrinted(g[0]) && AllPrinted(":");
      JoinedIsPrinted(g[1..], quad);
      hide AllPrinted;
      PrintedConcat(g[0], ":");
      PrintedConcat(g[0] + ":", Joined(g[1..], quad));
    }
  }

  lemma TextIsPrinted(f: Form)
    requires GroupsPrinted(f.left) && GroupsPrinted(f.right) && (f.quad == [] || |f.quad| == 4)
    ensures AllPrinted(Text(f))
  {
    hide Joined, GroupsPrinted;
    assert AllPrinted("::");
    NoGroupsPrinted();
    JoinedIsPrinted(f.left, []);
    JoinedIsPrinted(f.left, f.quad);
    JoinedIsPrinted(f.right, f.quad);
    hide AllPrinted;
    PrintedConcat(Joined(f.left, []), "::");
    PrintedConcat(Joined(f.left, []) + "::", Joined(f.right, f.quad));
  }

  lemma NoGroupsPrinted()
    ensures GroupsPrinted([]) && GroupsPrinted(["ffff"])
  {
    assert AllPrinted("ffff");
  }

  lemma CompressedIsPrinted(g: Groups, at: int, n: int)
    requires n == 0 || (0 <= at && 0 < n && at + n <= 8)
    ensures AllPrinted(Text(CompressedForm(g, at, n)))
  {
    hide AllPrinted, Text, HexText;
    var f := CompressedForm(g, at, n);
    forall i | 0 <= i < 8 ensures AllPrinted(HexTexts(g)[i]) {
      HexTextIsSmall(g[i]);
    }
    TextIsPrinted(f);
  }

  // What the printers print, for every address.
  lemma Ntop6IsPrinted(o: seq<Octet>, compat: bool)
    requires |o| == 16
    ensures AllPrinted(Ntop6(o, compat))
  {
    hide AllPrinted, Text, CompressedForm, GroupsOf;
    var r := LongestRun(GroupsOf(o));
    NoGroupsPrinted();
    TextIsPrinted(Form([], true, [], o[12..]));
    TextIsPrinted(Form([], true, ["ffff"], o[12..]));
    CompressedIsPrinted(GroupsOf(o), r.0, r.1);
  }

  // And what the serializer prints.
  lemma AdaTextIsPrinted(g: Groups, s: string)
    requires IsAdaText(g, s)
    ensures AllPrinted(s)
  {
    hide AllPrinted, Text, CompressedForm;
    var at, n :| IsLeftmostLongest(g, at, n) && s == Compressed(g, at, n);
    CompressedIsPrinted(g, at, if n <= 1 then 0 else n);
  }
}
