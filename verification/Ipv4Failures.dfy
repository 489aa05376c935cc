// What the dotted-quad parsers report about a text they do not accept: where reading stops, what
// has been read by then, and which character or which lack of characters the status names.
module Ipv4Failures {
  import opened Ipv4

  // The characters of decimal text.
  lemma DigitsAre(d: nat, c: char)
    ensures d < 10 ==> DigitChar(d) == "0123456789"[d] && DigitValue("0123456789"[d]) == d
    ensures IsDigit(c) <==> c in "0123456789"
  {
    if '0' <= c <= '9' {
      assert c == "0123456789"[c as int - '0' as int];
    }
  }

  // The octets o have been read, the last of them still without a digit if saw is false, and the
  // text goes on with rest.
  ghost predicate StopsAt(o: seq<Octet>, saw: bool, rest: string, status: Status) {
    && 1 <= |o| <= 4 && (saw || o[|o| - 1] == 0)
    && var last := o[|o| - 1];
       if rest == [] then
         status == if |o| == 4 && saw then Valid else TooLittleOctets
       else if rest[0] in "0123456789" then
         && saw
         && (status == InvalidLeadingZero || status == InvalidOctetRange)
         && (status == InvalidLeadingZero <==> last == 0)
         && (status == InvalidOctetRange ==> last * 10 + DigitValue(rest[0]) > 255)
       else if rest[0] == '.' && saw then
         |o| == 4 && status == TooManyOctets
       else
         status == InvalidCharacter
  }

  // Where reading does not go on.
  lemma StopsNow(p: Progress, s: string)
    requires 1 <= |p.octets| <= 4 && (p.sawDigit || p.octets[|p.octets| - 1] == 0) && s != []
    requires var last := p.octets[|p.octets| - 1];
      !(IsDigit(s[0]) && !(p.sawDigit && last == 0) && last * 10 + DigitValue(s[0]) <= 255)
      && !(s[0] == '.' && p.sawDigit && |p.octets| < 4)
    ensures Run(p, s).octets == p.octets && StopsAt(p.octets, p.sawDigit, s, Run(p, s).status)
  {
    DigitsAre(0, s[0]);
  }

  lemma {:induction false} RunStops(p: Progress, s: string) returns (k: nat, saw: bool)
    requires 1 <= |p.octets| <= 4 && (p.sawDigit || p.octets[|p.octets| - 1] == 0)
    ensures var r := Run(p, s);
      && k <= |s| && ReadSoFar(p) + s[..k] == ReadSoFar(Progress(r.octets, saw))
      && StopsAt(r.octets, saw, s[k..], r.status)
    decreases |s|
  {
    hide ReadSoFar, DigitValue;
    k, saw := 0, p.sawDigit;
    assert s[..0] == [] && s[0..] == s && ReadSoFar(p) + [] == ReadSoFar(p);
    if s == [] {
    } else {
      var n, c, rest := |p.octets| - 1, s[0], s[1..];
      var value := p.octets[n] * 10 + (if IsDigit(c) then DigitValue(c) else 0);
      if IsDigit(c) && !(p.sawDigit && p.octets[n] == 0) && value <= 255 {
        hide StopsAt;
        ReadDigit(p, c);
        k, saw := RunStops(Progress(p.octets[n := value], true), rest);
        OneMore(ReadSoFar(p), s, k);
        k := k + 1;
      } else if c == '.' && p.sawDigit && |p.octets| < 4 {
        hide StopsAt;
        ReadDot(p);
        k, saw := RunStops(Progress(p.octets + [0], false), rest);
        OneMore(ReadSoFar(p), s, k);
        k := k + 1;
      } else {
        hide StopsAt;
        StopsNow(p, s);
      }
    }
  }

  lemma OneMore(pre: string, s: string, k: nat)
    requires s != [] && k <= |s[1..]|
    ensures pre + s[..k + 1] == pre + [s[0]] + s[1..][..k] && s[k + 1..] == s[1..][k..]
  {
    assert s[..k + 1] == [s[0]] + s[1..][..k];
  }

  // For every text: a first part of it is the printed text of the octets that are returned, and
  // what follows decides the status.
  lemma ParseStops(s: string) returns (k: nat, saw: bool)
    ensures var r := Parse(s);
      && k <= |s| && s[..k] == ReadSoFar(Progress(r.octets, saw))
      && StopsAt(r.octets, saw, s[k..], r.status)
  {
    k, saw := RunStops(Progress([0], false), s);
    assert ReadSoFar(Progress([0], false)) == "";
    assert "" + s[..k] == s[..k];
  }
}
