// The dotted-quad routines as the program runs them, over the caller's buffers.
module Ipv4Routines {
  import opened Ipv4
  import opened Sequences

  // What the parsers leave in the buffer: the octets begun, from at on, and the rest untouched.
  ghost predicate Holds<T>(now: seq<T>, was: seq<T>, at: nat, written: seq<T>) {
    && |now| == |was| && at + |written| <= |now|
    && now == was[..at] + written + was[at + |written|..]
  }

  // *out, the octet that is open.
  method Current(out: array<Octet>, p: nat, ghost was: seq<Octet>, ghost at: nat, ghost written: seq<Octet>)
    returns (octet: Octet)
    requires Holds(out[..], was, at, written) && written != [] && p == at + |written| - 1
    ensures p < out.Length && octet == out[p] == written[|written| - 1]
  {
    octet := out[p];
  }

  // *out = value
  method Store(out: array<Octet>, p: nat, value: Octet, ghost was: seq<Octet>, ghost at: nat, ghost written: seq<Octet>)
    requires Holds(out[..], was, at, written) && written != [] && p == at + |written| - 1
    modifies out
    ensures Holds(out[..], was, at, written[|written| - 1 := value])
  {
    out[p] := value;
  }

  // *out = 0, where no octet has been written yet
  method Open(out: array<Octet>, p: nat, ghost was: seq<Octet>, ghost at: nat, ghost written: seq<Octet>)
    requires Holds(out[..], was, at, written) && p == at + |written| < out.Length
    modifies out
    ensures Holds(out[..], was, at, written + [0])
  {
    out[p] := 0;
  }

  // One character of the text.
  lemma RunOnce(src: string, k: nat, written: seq<Octet>, sawDigit: bool)
    requires k < |src| && 1 <= |written| <= 4 && Run(Progress(written, sawDigit), src[k..]) == Parse(src)
    ensures var n, ch := |written| - 1, src[k];
      if IsDigit(ch) then
        var value := written[n] * 10 + DigitValue(ch);
        if sawDigit && written[n] == 0 then Parse(src) == Parsed(InvalidLeadingZero, written)
        else if value > 255 then Parse(src) == Parsed(InvalidOctetRange, written)
        else Run(Progress(written[n := value], true), src[k + 1..]) == Parse(src)
      else if ch == '.' && sawDigit then
        if |written| == 4 then Parse(src) == Parsed(TooManyOctets, written)
        else Run(Progress(written + [0], false), src[k + 1..]) == Parse(src)
      else Parse(src) == Parsed(InvalidCharacter, written)
    ensures !IsDigit('.')
  {
    hide Parse;
    assert src[k..][1..] == src[k + 1..];
  }

  lemma RunStops(src: string, written: seq<Octet>, sawDigit: bool)
    requires 1 <= |written| <= 4 && Run(Progress(written, sawDigit), src[|src|..]) == Parse(src)
    ensures Parse(src) ==
            Parsed(if Begun(Progress(written, sawDigit)) < 4 then TooLittleOctets else Valid, written)
  {
    hide Parse;
    assert src[|src|..] == [];
  }

  lemma RunStarts(src: string)
    ensures Run(Progress([0], false), src[0..]) == Parse(src)
  {
    assert src[0..] == src;
  }

  // A digit, which both parsers take in the same way: status Valid means that reading goes on.
  method TakeDigit(
    ch: char, out: array<Octet>, p: nat, sawDigit: bool, octets: int,
    ghost src: string, ghost k: nat, ghost was: seq<Octet>, ghost at: nat, ghost written: seq<Octet>)
    returns (status: Status, newOctets: int, ghost newWritten: seq<Octet>)
    requires k < |src| && ch == src[k] && IsDigit(ch) && 1 <= |written| <= 4 && p == at + |written| - 1
    requires octets == Begun(Progress(written, sawDigit)) && Holds(out[..], was, at, written)
    requires Run(Progress(written, sawDigit), src[k..]) == Parse(src)
    modifies out
    ensures status != Valid ==> status == Parse(src).status && Holds(out[..], was, at, Parse(src).octets)
    ensures status == Valid ==>
              && |newWritten| == |written| && newOctets == |written| && Holds(out[..], was, at, newWritten)
              && Run(Progress(newWritten, true), src[k + 1..]) == Parse(src)
  {
    hide Holds, Run, Parse, IsDigit, DigitValue;
    RunOnce(src, k, written, sawDigit);
    newOctets, newWritten := octets, written;
    var octet := Current(out, p, was, at, written);
    var value := octet * 10 + DigitValue(ch);
    if sawDigit && octet == 0 {
      return InvalidLeadingZero, octets, written;
    }
    if value > 255 {
      return InvalidOctetRange, octets, written;
    }
    Store(out, p, value, was, at, written);
    newWritten := written[|written| - 1 := value];
    if !sawDigit {
      newOctets := octets + 1;
      if newOctets > 4 {
        assert false;
        return TooManyOctets, newOctets, newWritten;
      }
    }
    return Valid, newOctets, newWritten;
  }

  method InetPton4V1(src: string, out: array<Octet>, at: nat) returns (status: Status)
    requires at + 4 <= out.Length
    modifies out
    ensures status == Parse(src).status
    ensures Holds(out[..], old(out[..]), at, Parse(src).octets)
  {
    hide Holds, Run, Parse, IsDigit;
    ghost var was := out[..];
    ghost var written: seq<Octet> := [0];
    var sawDigit, octets, p, k := false, 0, at, 0;
    HoldsStart(out[..], at);
    Open(out, p, was, at, []);
    assert [] + [0] == written;
    RunStarts(src);
    while k < |src|
      invariant 0 <= k <= |src|
      invariant at <= p == at + |written| - 1 < at + 4
      invariant octets == Begun(Progress(written, sawDigit))
      invariant Holds(out[..], was, at, written)
      invariant Run(Progress(written, sawDigit), src[k..]) == Parse(src)
    {
      var ch := src[k];
      RunOnce(src, k, written, sawDigit);
      k := k + 1;
      if IsDigit(ch) {
        status, octets, written := TakeDigit(ch, out, p, sawDigit, octets, src, k - 1, was, at, written);
        if status != Valid {
          return;
        }
        sawDigit := true;
      } else if ch == '.' && sawDigit {
        if octets == 4 {
          return TooManyOctets;
        }
        p := p + 1;
        Open(out, p, was, at, written);
        sawDigit := false;
        written := written + [0];
      } else {
        return InvalidCharacter;
      }
    }
    RunStops(src, written, sawDigit);
    if octets < 4 {
      return TooLittleOctets;
    }
    return Valid;
  }

  method InetPton4V2(src: string, out: array<Octet>, at: nat) returns (status: Status)
    requires at + 4 <= out.Length
    modifies out
    ensures status == Parse(src).status
    ensures Holds(out[..], old(out[..]), at, Parse(src).octets)
  {
    hide Holds, Run, Parse, IsDigit;
    ghost var was := out[..];
    ghost var written: seq<Octet> := [0];
    var sawDigit, octets, p, k := false, 0, at, 0;
    HoldsStart(out[..], at);
    Open(out, p, was, at, []);
    assert [] + [0] == written;
    RunStarts(src);
    while k < |src|
      invariant 0 <= k <= |src|
      invariant at <= p == at + |written| - 1 < at + 4
      invariant octets == Begun(Progress(written, sawDigit))
      invariant Holds(out[..], was, at, written)
      invariant Run(Progress(written, sawDigit), src[k..]) == Parse(src)
    {
      var ch := src[k];
      RunOnce(src, k, written, sawDigit);
      k := k + 1;
      match ch {
        case '.' =>
          if !sawDigit {
            return InvalidCharacter;
          }
          if octets == 4 {
            return TooManyOctets;
          }
          p := p + 1;
          Open(out, p, was, at, written);
          sawDigit := false;
          written := written + [0];
        case _ =>
          if !IsDigit(ch) {
            return InvalidCharacter;
          }
          status, octets, written := TakeDigit(ch, out, p, sawDigit, octets, src, k - 1, was, at, written);
          if status != Valid {
            return;
          }
          sawDigit := true;
      }
    }
    RunStops(src, written, sawDigit);
    if octets < 4 {
      return TooLittleOctets;
    }
    return Valid;
  }

  lemma HoldsStart<T>(now: seq<T>, at: nat)
    requires at <= |now|
    ensures Holds(now, now, at, [])
  {
  }

  // *out++ = ch
  method Put(out: array<char>, at: nat, ch: char) returns (next: nat)
    requires at < out.Length
    modifies out
    ensures next == at + 1
    ensures out[..next] == old(out[..at]) + [ch]
    ensures forall k | next <= k < out.Length :: out[k] == old(out[k])
  {
    out[at] := ch;
    next := at + 1;
  }

  lemma DecimalDigits(x: Octet)
    ensures Decimal(x) ==
            if x < 10 then [DigitChar(x)]
            else if x < 100 then [DigitChar(x / 10), DigitChar(x % 10)]
            else [DigitChar(x / 100), DigitChar(x % 100 / 10), DigitChar(x % 10)]
  {
    hide DigitChar;
    if x >= 100 {
      assert x / 10 / 10 == x / 100 && x / 10 % 10 == x % 100 / 10;
      assert Decimal(x / 10) == [DigitChar(x / 100)] + [DigitChar(x % 100 / 10)];
    }
  }

  // WEBPP_PUT_CHAR
  method PutOctet(x: Octet, out: array<char>, at: nat) returns (next: nat)
    requires at + 3 <= out.Length
    modifies out
    ensures at < next <= at + 3
    ensures out[..next] == old(out[..at]) + Decimal(x)
    ensures forall k | next <= k < out.Length :: out[k] == old(out[k])
  {
    hide Decimal;
    if x < 10 {
      next := Put(out, at, DigitChar(x));
    } else if x < 100 {
      next := Put(out, at, DigitChar(x / 10));
      next := Put(out, next, DigitChar(x % 10));
    } else {
      next := Put(out, at, DigitChar(x / 100));
      next := Put(out, next, DigitChar(x % 100 / 10));
      next := Put(out, next, DigitChar(x % 10));
    }
    DecimalDigits(x);
  }

  // v2::inet_ntop4: at most fifteen characters.
  method InetNtop4(src: seq<Octet>, out: array<char>, at: nat) returns (next: nat)
    requires |src| == 4 && at + 15 <= out.Length
    modifies out
    ensures at + 7 <= next <= at + 15
    ensures out[..next] == old(out[..at]) + Dotted(src)
    ensures forall k | next <= k < out.Length :: out[k] == old(out[k])
  {
    hide Decimal, Dotted;
    ghost var pre := out[..at];
    next := PutOctet(src[0], out, at);
    next := Put(out, next, '.');
    next := PutOctet(src[1], out, next);
    next := Put(out, next, '.');
    next := PutOctet(src[2], out, next);
    next := Put(out, next, '.');
    next := PutOctet(src[3], out, next);
    DottedAfter(pre, src);
  }

  lemma DottedAfter(pre: string, src: seq<Octet>)
    requires |src| == 4
    ensures pre + Decimal(src[0]) + "." + Decimal(src[1]) + "." + Decimal(src[2]) + "." + Decimal(src[3]) ==
            pre + Dotted(src)
  {
    hide Decimal;
    var a, b, c, d := Decimal(src[0]), Decimal(src[1]), Decimal(src[2]), Decimal(src[3]);
    ConcatAssociates(pre, a, ".");
    ConcatAssociates(pre, a + ".", b);
    ConcatAssociates(pre, a + "." + b, ".");
    ConcatAssociates(pre, a + "." + b + ".", c);
    ConcatAssociates(pre, a + "." + b + "." + c, ".");
    ConcatAssociates(pre, a + "." + b + "." + c + ".", d);
  }

  // webpp::v1::inet_ntop4: the same, and a terminator after the text.
  method InetNtop4Terminated(src: seq<Octet>, out: array<char>, at: nat) returns (next: nat)
    requires |src| == 4 && at + 16 <= out.Length
    modifies out
    ensures at + 7 <= next <= at + 15
    ensures out[..next] == old(out[..at]) + Dotted(src) && out[next] == '\0'
    ensures forall k | next < k < out.Length :: out[k] == old(out[k])
  {
    next := InetNtop4(src, out, at);
    out[next] := '\0';
  }
}
