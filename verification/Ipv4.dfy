// Dotted-quad text: the two parsers, the printer, and the proof that they are inverse.
module Ipv4 {

  type Octet = x: int | 0 <= x < 256

  datatype Status = Valid | TooLittleOctets | TooManyOctets | InvalidOctetRange | InvalidLeadingZero | InvalidCharacter

  predicate IsDigit(ch: char) {
    '0' <= ch <= '9'
  }

  function DigitValue(ch: char): (d: nat)
    requires IsDigit(ch)
    ensures d < 10
  {
    ch as int - '0' as int
  }

  function DigitChar(d: nat): (ch: char)
    requires d < 10
    ensures IsDigit(ch) && DigitValue(ch) == d
  {
    ('0' as int + d) as char
  }

  // Decimal text without leading zeros.
  function Decimal(n: nat): (s: string)
    ensures |s| > 0
  {
    if n < 10 then [DigitChar(n)] else Decimal(n / 10) + [DigitChar(n % 10)]
  }

  // ---------- parsing, as a function ----------

  // The octets begun so far, the last of them still open, and whether it has a digit yet.
  datatype Progress = Progress(octets: seq<Octet>, sawDigit: bool)

  datatype Parsed = Parsed(status: Status, octets: seq<Octet>)

  function Begun(p: Progress): int {
    if p.sawDigit then |p.octets| else |p.octets| - 1
  }

  function Run(p: Progress, s: string): (r: Parsed)
    requires 1 <= |p.octets| <= 4
    ensures 1 <= |r.octets| <= 4
    ensures r.status == Valid ==> |r.octets| == 4
    decreases |s|
  {
    var n := |p.octets| - 1;
    if s == [] then Parsed(if Begun(p) < 4 then TooLittleOctets else Valid, p.octets)
    else if IsDigit(s[0]) then
      var value := p.octets[n] * 10 + DigitValue(s[0]);
      if p.sawDigit && p.octets[n] == 0 then Parsed(InvalidLeadingZero, p.octets)
      else if value > 255 then Parsed(InvalidOctetRange, p.octets)
      else Run(Progress(p.octets[n := value], true), s[1..])
    else if s[0] == '.' && p.sawDigit then
      if |p.octets| == 4 then Parsed(TooManyOctets, p.octets)
      else Run(Progress(p.octets + [0], false), s[1..])
    else Parsed(InvalidCharacter, p.octets)
  }

  // What both parsers return, and the octets they leave at out.
  function Parse(s: string): (r: Parsed)
    ensures 1 <= |r.octets| <= 4
    ensures r.status == Valid ==> |r.octets| == 4
  {
    Run(Progress([0], false), s)
  }

  // ---------- printing, as a function ----------

  function Dotted(o: seq<Octet>): string
    requires |o| == 4
  {
    Decimal(o[0]) + "." + Decimal(o[1]) + "." + Decimal(o[2]) + "." + Decimal(o[3])
  }

  // ---------- parsing is exactly the inverse of printing ----------

  // The text that leads to a state of the parser.
  function ReadSoFar(p: Progress): string
    requires |p.octets| > 0
    decreases |p.octets|
  {
    var n := |p.octets| - 1;
    (if n == 0 then "" else ReadSoFar(Progress(p.octets[..n], true)) + ".")
    + (if p.sawDigit then Decimal(p.octets[n]) else "")
  }

  lemma DecimalOf(n: nat, ch: char)
    requires IsDigit(ch)
    ensures Decimal(DigitValue(ch)) == [ch]
    ensures n != 0 ==> Decimal(n * 10 + DigitValue(ch)) == Decimal(n) + [ch]
  {
  }

  lemma ReadDigit(p: Progress, ch: char)
    requires |p.octets| > 0 && IsDigit(ch)
    requires var n := |p.octets| - 1;
             p.octets[n] * 10 + DigitValue(ch) < 256 && (if p.sawDigit then p.octets[n] != 0 else p.octets[n] == 0)
    ensures var n := |p.octets| - 1;
            ReadSoFar(Progress(p.octets[n := p.octets[n] * 10 + DigitValue(ch)], true)) == ReadSoFar(p) + [ch]
  {
    hide Decimal, DigitValue;
    var n := |p.octets| - 1;
    var before := if n == 0 then "" else ReadSoFar(Progress(p.octets[..n], true)) + ".";
    var q := Progress(p.octets[n := p.octets[n] * 10 + DigitValue(ch)], true);
    assert q.octets[..n] == p.octets[..n];
    DecimalOf(p.octets[n], ch);
    assert ReadSoFar(q) == before + Decimal(q.octets[n]);
  }

  lemma ReadDot(p: Progress)
    requires |p.octets| > 0 && p.sawDigit
    ensures ReadSoFar(Progress(p.octets + [0], false)) == ReadSoFar(p) + "."
  {
    assert (p.octets + [0])[..|p.octets|] == p.octets;
  }

  lemma ReadAll(o: seq<Octet>)
    requires |o| == 4
    ensures ReadSoFar(Progress(o, true)) == Dotted(o)
  {
    assert o[..3][..2] == o[..2] && o[..2][..1] == o[..1];
    assert ReadSoFar(Progress(o[..1], true)) == Decimal(o[0]);
    assert ReadSoFar(Progress(o[..2], true)) == Decimal(o[0]) + "." + Decimal(o[1]);
    assert ReadSoFar(Progress(o[..3], true)) == Decimal(o[0]) + "." + Decimal(o[1]) + "." + Decimal(o[2]);
  }

  lemma {:induction false} RunIsSound(p: Progress, s: string)
    requires 1 <= |p.octets| <= 4 && (p.sawDigit || p.octets[|p.octets| - 1] == 0)
    requires Run(p, s).status == Valid
    ensures ReadSoFar(p) + s == Dotted(Run(p, s).octets)
    decreases |s|
  {
    hide ReadSoFar, Dotted;
    var n := |p.octets| - 1;
    if s == [] {
      ReadAll(p.octets);
    } else if IsDigit(s[0]) {
      ReadDigit(p, s[0]);
      RunIsSound(Progress(p.octets[n := p.octets[n] * 10 + DigitValue(s[0])], true), s[1..]);
      assert ReadSoFar(p) + s == ReadSoFar(p) + [s[0]] + s[1..];
    } else {
      ReadDot(p);
      RunIsSound(Progress(p.octets + [0], false), s[1..]);
      assert ReadSoFar(p) + s == ReadSoFar(p) + [s[0]] + s[1..];
    }
  }

  // Reading the decimal text of n into an open octet.
  lemma {:induction false} RunReadsDecimal(front: seq<Octet>, n: Octet, rest: string)
    requires |front| < 4
    ensures Run(Progress(front + [0], false), Decimal(n) + rest) == Run(Progress(front + [n], true), rest)
    decreases n
  {
    var s := Decimal(n) + rest;
    if n < 10 {
      assert s[1..] == rest;
      assert (front + [0])[|front| := n] == front + [n];
    } else {
      assert s == Decimal(n / 10) + ([DigitChar(n % 10)] + rest);
      RunReadsDecimal(front, n / 10, [DigitChar(n % 10)] + rest);
      assert ([DigitChar(n % 10)] + rest)[1..] == rest;
      assert (front + [n / 10])[|front| := n] == front + [n];
    }
  }

  lemma RunReadsDot(octets: seq<Octet>, rest: string)
    requires 1 <= |octets| < 4
    ensures Run(Progress(octets, true), "." + rest) == Run(Progress(octets + [0], false), rest)
  {
    assert ("." + rest)[1..] == rest;
  }

  // Parsing printed octets returns them.
  lemma ParseOfDotted(o: seq<Octet>)
    requires |o| == 4
    ensures Parse(Dotted(o)) == Parsed(Valid, o)
  {
    hide Run, Decimal;
    var s3 := Decimal(o[3]);
    var s2 := Decimal(o[2]) + "." + s3;
    var s1 := Decimal(o[1]) + "." + s2;
    assert Dotted(o) == Decimal(o[0]) + ("." + s1);
    assert s1 == Decimal(o[1]) + ("." + s2) && s2 == Decimal(o[2]) + ("." + s3) && s3 == Decimal(o[3]) + "";
    assert [] + [0] == [0] && [] + [o[0]] == [o[0]];
    RunReadsDecimal([], o[0], "." + s1);
    RunReadsDot([o[0]], s1);
    RunReadsDecimal([o[0]], o[1], "." + s2);
    RunReadsDot([o[0]] + [o[1]], s2);
    RunReadsDecimal([o[0]] + [o[1]], o[2], "." + s3);
    RunReadsDot([o[0]] + [o[1]] + [o[2]], s3);
    RunReadsDecimal([o[0]] + [o[1]] + [o[2]], o[3], "");
    RunEnds([o[0]] + [o[1]] + [o[2]] + [o[3]]);
    assert [o[0]] + [o[1]] + [o[2]] + [o[3]] == o;
  }

  lemma RunEnds(o: seq<Octet>)
    requires |o| == 4
    ensures Run(Progress(o, true), "") == Parsed(Valid, o)
  {
  }

  // Exactly the printed texts are accepted, each with the octets it was printed from.
  lemma ParseAcceptsDotted(s: string, o: seq<Octet>)
    requires |o| == 4
    ensures Parse(s) == Parsed(Valid, o) <==> s == Dotted(o)
    ensures Parse(s).status == Valid <==> exists p: seq<Octet> :: |p| == 4 && s == Dotted(p)
  {
    hide Dotted;
    ParseOfDotted(o);
    if Parse(s).status == Valid {
      RunIsSound(Progress([0], false), s);
      assert ReadSoFar(Progress([0], false)) == "";
      assert s == Dotted(Parse(s).octets);
    }
    if p: seq<Octet> :| |p| == 4 && s == Dotted(p) {
      ParseOfDotted(p);
    }
  }
}
