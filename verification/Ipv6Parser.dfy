// inet_pton6 as the program runs it: one pass over the text that writes octets into the
// caller's sixteen-byte buffer and remembers where the gap is. The two versions of the program
// differ only in how they move what follows the gap to the end of the buffer.
module Ipv6Parser {
  import opened Wrappers
  import opened Ipv4
  import opened Ipv4Routines
  import opened Ipv6Text
  import opened Sequences

  // A buffer whose gap, from colon to the end of what is written, has been expanded: the octets
  // after the gap are at the end, and zeros are in between.
  function Spread(b: seq<Octet>, colon: nat, out: nat): (r: seq<Octet>)
    requires colon <= out <= |b|
    ensures |r| == |b|
  {
    b[..colon] + Zeros(|b| - out) + b[colon..out]
  }

  // memmove of n octets from one place in the buffer to another.
  method Memmove(b: array<Octet>, to: nat, from: nat, n: nat)
    requires to + n <= b.Length && from + n <= b.Length
    modifies b
    ensures Holds<Octet>(b[..], old(b[..]), to, old(b[..])[from..from + n])
  {
    forall i | 0 <= i < n {
      b[to + i] := b[from + i];
    }
  }

  method Memset(b: array<Octet>, at: nat, n: nat)
    requires at + n <= b.Length
    modifies b
    ensures Holds<Octet>(b[..], old(b[..]), at, Zeros(n))
  {
    forall i | 0 <= i < n {
      b[at + i] := 0;
    }
  }

  lemma SpreadAt(was: seq<Octet>, b: array<Octet>, colon: nat, out: nat, gap: nat)
    requires colon <= out <= |was| == b.Length && gap == |was| - out
    requires forall i | 0 <= i < colon :: b[i] == was[i]
    requires forall i | colon <= i < colon + gap :: b[i] == 0
    requires forall i | colon + gap <= i < b.Length :: b[i] == was[i - gap]
    ensures b[..] == Spread(was, colon, out)
  {
  }

  lemma SpreadByMoves(was: seq<Octet>, moved: seq<Octet>, now: seq<Octet>, colon: nat, n: nat, to: nat)
    requires colon + n <= |was| && to == |was| - n
    requires Holds<Octet>(moved, was, to, was[colon..colon + n])
    requires Holds<Octet>(now, moved, colon, Zeros(to - colon))
    ensures now == Spread(was, colon, colon + n)
  {
    assert moved[..colon] == was[..colon];
    assert moved[to..] == was[colon..colon + n];
  }

  // The expansion with memmove and memset.
  method ExpandWithMemmove(b: array<Octet>, colon: nat, out: nat)
    requires colon <= out < b.Length
    modifies b
    ensures b[..] == Spread(old(b[..]), colon, out)
  {
    hide Spread, Zeros, Holds;
    ghost var was := b[..];
    var n := out - colon;
    var to := b.Length - n;
    Memmove(b, to, colon, n);
    ghost var moved := b[..];
    Memset(b, colon, to - colon);
    SpreadByMoves(was, moved, b[..], colon, n, to);
  }

  // Zeros over what is left of the gap.
  method ClearGap(b: array<Octet>, from: nat, to: nat)
    requires from <= to <= b.Length
    modifies b
    ensures forall i | from <= i < to :: b[i] == 0
    ensures forall i | 0 <= i < b.Length && !(from <= i < to) :: b[i] == old(b[i])
  {
    var o := from;
    while o != to
      invariant from <= o <= to
      invariant forall i | from <= i < o :: b[i] == 0
      invariant forall i | 0 <= i < b.Length && !(from <= i < o) :: b[i] == old(b[i])
    {
      b[o] := 0;
      o := o + 1;
    }
  }

  // The expansion by hand, from right to left and then over what is left of the gap.
  method ExpandByHand(b: array<Octet>, colon: nat, out: nat)
    requires colon <= out < b.Length
    modifies b
    ensures b[..] == Spread(old(b[..]), colon, out)
  {
    hide Spread, Zeros;
    ghost var was := b[..];
    ghost var gap := b.Length - out;
    var rightp, leftp, o := b.Length, out, out;
    while leftp != colon
      invariant colon <= leftp <= out && rightp == leftp + gap
      invariant forall i | rightp <= i < b.Length :: b[i] == was[i - gap]
      invariant forall i | leftp <= i < out && i < rightp :: b[i] == 0
      invariant forall i | 0 <= i < leftp :: b[i] == was[i]
    {
      rightp, leftp := rightp - 1, leftp - 1;
      b[rightp] := b[leftp];
      b[leftp] := 0;
    }
    if o < rightp {
      b[o] := 0;
      o := o + 1;
      ClearGap(b, o, rightp);
    }
    SpreadAt(was, b, colon, out, gap);
  }

  // ---------- the loop ----------

  // One step of Scan.
  lemma ScanOnce(st: State, s: string)
    requires IsState(st) && s != []
    ensures Scan(st, s) ==
      if HexDigitSafe(s[0]) >= 0 then
        if |st.token| == 4 then Parsed6(InvalidRange, st.out)
        else Scan(State(st.out, st.colon, st.token + [s[0]]), s[1..])
      else if s[0] == ':' then
        if st.token == [] then
          if st.colon.Some? then Parsed6(InvalidColonUsage, st.out)
          else Scan(State(st.out, Some(|st.out|), []), s[1..])
        else if |s| == 1 then Parsed6(BadEnding, st.out)
        else if |st.out| + 2 > 16 then Parsed6(InvalidRange, st.out)
        else Scan(State(st.out + GroupOctets(st.token), st.colon, []), s[1..])
      else if s[0] == '.' && |st.out| + 4 <= 16 then
        var quad := Parse(st.token + s);
        if quad.status == Valid then Finish(State(st.out + quad.octets, st.colon, []), false)
        else Parsed6(OfStatus4(quad.status), st.out + quad.octets)
      else if s[0] == '/' then Finish(st, true)
      else Parsed6(InvalidChar, st.out)
  {
  }

  // The loop's variables stand for this state: what is written, the gap, the open group.
  function StateOf(b: seq<Octet>, out: nat, colon: int, token: string): State
    requires out <= |b|
  {
    State(b[..out], if colon < 0 then None else Some(colon), token)
  }

  // Reading src[..k] has led to the loop's variables, and nothing from out on has been written.
  ghost predicate Reading(
    src: string, k: nat, was: seq<Octet>, b: seq<Octet>, out: nat, colon: int, tokenAt: nat, hexSeen: nat, val: nat)
  {
    && tokenAt <= k <= |src| && |b| == |was| == 16 && out <= 16 && -1 <= colon <= out
    && b[out..] == was[out..]
    && hexSeen == k - tokenAt && hexSeen <= 4 && IsHex(src[tokenAt..k]) && val == HexValue(src[tokenAt..k])
    && Parse6(src) == Scan(StateOf(b, out, colon, src[tokenAt..k]), src[k..])
  }

  lemma ReadHex(
    src: string, k: nat, was: seq<Octet>, b: seq<Octet>, out: nat, colon: int, tokenAt: nat, hexSeen: nat, val: nat)
    requires Reading(src, k, was, b, out, colon, tokenAt, hexSeen, val) && k < |src| && HexDigitSafe(src[k]) >= 0
    ensures hexSeen == 4 ==> Parse6(src) == Parsed6(InvalidRange, b[..out])
    ensures hexSeen < 4 ==>
              && val * 16 + HexDigitSafe(src[k]) < 0x1_0000
              && Reading(src, k + 1, was, b, out, colon, tokenAt, hexSeen + 1, val * 16 + HexDigitSafe(src[k]))
  {
    hide Scan, Parse6, HexDigitSafe;
    var token := src[tokenAt..k];
    ScanOnce(StateOf(b, out, colon, token), src[k..]);
    assert src[k..][1..] == src[k + 1..];
    if hexSeen < 4 {
      var longer := src[tokenAt..k + 1];
      assert longer == token + [src[k]];
      assert IsHex(longer);
      assert longer[..|longer| - 1] == token;
      HexValueBound(longer);
    }
  }

  lemma ReadColon(
    src: string, k: nat, was: seq<Octet>, b: seq<Octet>, out: nat, colon: int, tokenAt: nat, hexSeen: nat, val: nat)
    requires Reading(src, k, was, b, out, colon, tokenAt, hexSeen, val) && k < |src| && src[k] == ':'
    ensures hexSeen == 0 && colon >= 0 ==> Parse6(src) == Parsed6(InvalidColonUsage, b[..out])
    ensures hexSeen == 0 && colon < 0 ==> Reading(src, k + 1, was, b, out, out, k + 1, 0, val)
    ensures hexSeen > 0 && k + 1 == |src| ==> Parse6(src) == Parsed6(BadEnding, b[..out])
    ensures hexSeen > 0 && k + 1 < |src| && out + 2 > 16 ==> Parse6(src) == Parsed6(InvalidRange, b[..out])
    ensures hexSeen > 0 && k + 1 < |src| && out + 2 <= 16 ==>
              && val < 0x1_0000
              && Reading(src, k + 1, was, b[out := val / 256][out + 1 := val % 256], out + 2, colon, k + 1, 0, 0)
  {
    hide Scan, Parse6;
    var token := src[tokenAt..k];
    ScanOnce(StateOf(b, out, colon, token), src[k..]);
    assert src[k..][1..] == src[k + 1..];
    assert src[k + 1..k + 1] == [];
    if hexSeen > 0 && k + 1 < |src| && out + 2 <= 16 {
      PutGroupOctets(b, out, token);
    }
  }

  lemma ReadOther(
    src: string, k: nat, was: seq<Octet>, b: seq<Octet>, out: nat, colon: int, tokenAt: nat, hexSeen: nat, val: nat)
    requires Reading(src, k, was, b, out, colon, tokenAt, hexSeen, val) && k < |src|
    requires HexDigitSafe(src[k]) < 0 && src[k] != ':'
    ensures src[k] == '.' && out + 4 <= 16 ==>
              var quad := Parse(src[tokenAt..]);
              Parse6(src) ==
                if quad.status == Valid then Finish(StateOf(b[..out] + quad.octets, out + 4, colon, []), false)
                else Parsed6(OfStatus4(quad.status), b[..out] + quad.octets)
    ensures src[k] == '/' ==> Parse6(src) == Finish(StateOf(b, out, colon, src[tokenAt..k]), true)
    ensures !(src[k] == '.' && out + 4 <= 16) && src[k] != '/' ==> Parse6(src) == Parsed6(InvalidChar, b[..out])
  {
    hide Scan, Parse6, Finish, Parse;
    var token := src[tokenAt..k];
    ScanOnce(StateOf(b, out, colon, token), src[k..]);
    assert token + src[k..] == src[tokenAt..];
    if src[k] == '.' && out + 4 <= 16 && Parse(src[tokenAt..]).status == Valid {
      var o := Parse(src[tokenAt..]).octets;
      assert (b[..out] + o)[..out + 4] == b[..out] + o;
    }
  }

  lemma ReadStart(src: string, was: seq<Octet>)
    requires |was| == 16
    ensures src == [] ==> Parse6(src) == Parsed6(BadEnding, [])
    ensures src != [] && src[0] != ':' ==> Reading(src, 0, was, was, 0, -1, 0, 0, 0)
    ensures src != [] && src[0] == ':' ==>
              if |src| == 1 || src[1] != ':' then Parse6(src) == Parsed6(InvalidColonUsage, [])
              else Reading(src, 1, was, was, 0, -1, 1, 0, 0)
  {
    hide Scan;
    assert src[0..] == src && src[0..0] == [] && was[..0] == [];
    assert src != [] ==> src[1..1] == [];
  }

  // The two octets of a group, put where the group is written.
  lemma PutGroupOctets(b: seq<Octet>, out: nat, token: string)
    requires 0 < |token| <= 4 && IsHex(token) && out + 2 <= |b|
    ensures HexValue(token) < 0x1_0000
    ensures var after := b[out := HexValue(token) / 256][out + 1 := HexValue(token) % 256];
      after[..out + 2] == b[..out] + GroupOctets(token) && after[out + 2..] == b[out + 2..]
  {
    hide HexValue, IsHex;
    HexValueBound(token);
    PutTwo<Octet>(b, out, HexValue(token) / 256, HexValue(token) % 256);
  }

  // The open group when the loop ends is written like any other.
  lemma FlushGroup(was: seq<Octet>, b: seq<Octet>, out: nat, colon: int, token: string, slash: bool)
    requires |b| == 16 && out <= 16 && -1 <= colon <= out && 0 < |token| <= 4 && IsHex(token)
    ensures out + 2 > 16 ==> Finish(StateOf(b, out, colon, token), slash) == Parsed6(InvalidRange, b[..out])
    ensures out + 2 <= 16 ==>
              && HexValue(token) < 0x1_0000
              && var after := b[out := HexValue(token) / 256][out + 1 := HexValue(token) % 256];
                 Finish(StateOf(b, out, colon, token), slash) == Finish(StateOf(after, out + 2, colon, []), slash)
  {
    hide Expanded, HexValue, IsHex, GroupOctets;
    if out + 2 <= 16 {
      PutGroupOctets(b, out, token);
    }
  }

  // The variables after the loop, with the group that is still open.
  ghost predicate AtEnd(
    src: string, was: seq<Octet>, b: seq<Octet>, out: nat, colon: int, token: string, hexSeen: nat, val: nat,
    slash: bool)
  {
    && |b| == |was| == 16 && out <= 16 && -1 <= colon <= out && b[out..] == was[out..]
    && hexSeen == |token| <= 4 && IsHex(token) && (hexSeen > 0 ==> val == HexValue(token))
    && Parse6(src) == Finish(StateOf(b, out, colon, token), slash)
  }

  lemma EndOfText(
    src: string, was: seq<Octet>, b: seq<Octet>, out: nat, colon: int, tokenAt: nat, hexSeen: nat, val: nat)
    requires Reading(src, |src|, was, b, out, colon, tokenAt, hexSeen, val)
    ensures AtEnd(src, was, b, out, colon, src[tokenAt..], hexSeen, val, false)
  {
    hide Parse6, Finish;
    assert src[|src|..] == [] && src[tokenAt..|src|] == src[tokenAt..];
  }

  lemma EndAtSlash(
    src: string, k: nat, was: seq<Octet>, b: seq<Octet>, out: nat, colon: int, tokenAt: nat, hexSeen: nat, val: nat)
    requires Reading(src, k, was, b, out, colon, tokenAt, hexSeen, val) && k < |src| && src[k] == '/'
    ensures AtEnd(src, was, b, out, colon, src[tokenAt..k], hexSeen, val, true)
  {
    hide Parse6, Scan, Finish;
    ReadOther(src, k, was, b, out, colon, tokenAt, hexSeen, val);
  }

  // Reading the dotted quad that the open group begins.
  lemma EndAtQuad(
    src: string, k: nat, was: seq<Octet>, b: seq<Octet>, after: seq<Octet>, out: nat, colon: int, tokenAt: nat,
    hexSeen: nat, val: nat)
    requires Reading(src, k, was, b, out, colon, tokenAt, hexSeen, val) && k < |src| && src[k] == '.' && out + 4 <= 16
    requires Holds(after, b, out, Parse(src[tokenAt..]).octets)
    ensures var quad := Parse(src[tokenAt..]);
            if quad.status == Valid then AtEnd(src, was, after, out + 4, colon, [], 0, val, false)
            else Parse6(src).status == OfStatus4(quad.status) && Holds(after, was, 0, Parse6(src).written)
  {
    hide Parse6, Scan, Finish, Parse;
    ReadOther(src, k, was, b, out, colon, tokenAt, hexSeen, val);
    var o := Parse(src[tokenAt..]).octets;
    var n := out + |o|;
    assert after[..n] == b[..out] + o;
    assert after[n..] == b[n..] == b[out..][|o|..] == was[out..][|o|..] == was[n..];
    if |o| == 4 {
      assert (b[..out] + o)[..n] == b[..out] + o;
    }
  }

  // The variables after the last group has been written: no group is open.
  ghost predicate IsRead(src: string, was: seq<Octet>, b: seq<Octet>, out: nat, colon: int, slash: bool) {
    && |b| == |was| == 16 && out <= 16 && -1 <= colon <= out && b[out..] == was[out..]
    && Parse6(src) == Finish(StateOf(b, out, colon, []), slash)
  }

  // The failures found in the loop leave what has been written so far.
  lemma FailureHolds(was: seq<Octet>, b: seq<Octet>, out: nat)
    requires |b| == |was| && out <= |b| && b[out..] == was[out..]
    ensures Holds(b, was, 0, b[..out])
  {
    assert b == b[..out] + b[out..];
  }

  lemma LastGroup(
    src: string, was: seq<Octet>, b: seq<Octet>, out: nat, colon: int, token: string, hexSeen: nat, val: nat,
    slash: bool)
    requires AtEnd(src, was, b, out, colon, token, hexSeen, val, slash)
    ensures out <= |b| == |was| && b[out..] == was[out..]
    ensures hexSeen == 0 ==> IsRead(src, was, b, out, colon, slash)
    ensures hexSeen > 0 && out + 2 > 16 ==> Parse6(src) == Parsed6(InvalidRange, b[..out])
    ensures hexSeen > 0 && out + 2 <= 16 ==>
              val < 0x1_0000 && IsRead(src, was, b[out := val / 256][out + 1 := val % 256], out + 2, colon, slash)
  {
    hide Parse6, Finish;
    if hexSeen > 0 {
      FlushGroup(was, b, out, colon, token, slash);
    }
  }

  lemma ReadingBounds(
    src: string, k: nat, was: seq<Octet>, b: seq<Octet>, out: nat, colon: int, tokenAt: nat, hexSeen: nat, val: nat)
    requires Reading(src, k, was, b, out, colon, tokenAt, hexSeen, val)
    ensures tokenAt <= k <= |src| && |b| == |was| == 16 && out <= 16 && -1 <= colon <= out && b[out..] == was[out..]
    ensures hexSeen <= 4
  {
  }

  // The two octets of a group, high octet first.
  method PutPair(b: array<Octet>, out: nat, val: nat) returns (next: nat)
    requires out + 2 <= b.Length && val < 0x1_0000
    modifies b
    ensures next == out + 2 && b[..] == old(b[..])[out := val / 256][out + 1 := val % 256]
  {
    b[out] := val / 256;
    b[out + 1] := val % 256;
    next := out + 2;
  }

  // The group that is still open after the loop is written if there is room for it.
  method WriteLastGroup(
    b: array<Octet>, at: nat, hexSeen: nat, val: nat, ghost src: string, ghost was: seq<Octet>, ghost colon: int,
    ghost token: string, ghost slash: bool)
    returns (status: Status6, out: nat)
    requires b.Length == 16 && AtEnd(src, was, b[..], at, colon, token, hexSeen, val, slash)
    modifies b
    ensures status != Valid6 ==> status == Parse6(src).status && Holds(b[..], was, 0, Parse6(src).written)
    ensures status == Valid6 ==> IsRead(src, was, b[..], out, colon, slash)
  {
    hide Parse6, Finish, HexValue, IsHex, Holds, StateOf, AtEnd, IsRead;
    LastGroup(src, was, b[..], at, colon, token, hexSeen, val, slash);
    FailureHolds(was, b[..], at);
    out := at;
    if hexSeen > 0 {
      if out + 2 > 16 {
        return InvalidRange, out;
      }
      out := PutPair(b, out, val);
    }
    return Valid6, out;
  }

  // Everything up to the expansion of the gap.
  method ReadText(src: string, b: array<Octet>) returns (status: Status6, out: nat, colon: int, slash: bool)
    requires b.Length == 16
    modifies b
    ensures status != Valid6 ==>
              status == Parse6(src).status && Holds(b[..], old(b[..]), 0, Parse6(src).written)
    ensures status == Valid6 ==> IsRead(src, old(b[..]), b[..], out, colon, slash)
  {
    hide Parse6, Scan, Finish, Parse, HexDigitSafe, HexValue, IsHex, Holds, StateOf, AtEnd, IsRead, Reading;
    ghost var was := b[..];
    out, colon, slash := 0, -1, false;
    var k := 0;
    ReadStart(src, was);
    FailureHolds(was, was, 0);
    assert was[..0] == [];
    if k == |src| {
      return BadEnding, out, colon, slash;
    }
    if src[k] == ':' {
      k := k + 1;
      if k == |src| || src[k] != ':' {
        return InvalidColonUsage, out, colon, slash;
      }
    }
    var currentToken, hexSeen: nat, val: nat := k, 0, 0;
    ghost var token := "";
    ghost var atEnd := false;
    while k < |src|
      invariant !atEnd && Reading(src, k, was, b[..], out, colon, currentToken, hexSeen, val)
      decreases |src| - k
    {
      ReadingBounds(src, k, was, b[..], out, colon, currentToken, hexSeen, val);
      FailureHolds(was, b[..], out);
      ghost var at := k;
      var ch := src[k];
      k := k + 1;
      var digit := HexDigitSafe(ch);
      if digit >= 0 {
        ReadHex(src, at, was, b[..], out, colon, currentToken, hexSeen, val);
        if hexSeen == 4 {
          return InvalidRange, out, colon, slash;
        }
        val := val * 16 + digit;
        if val > 0xffff {
          assert false;
          return InvalidRange, out, colon, slash;
        }
        hexSeen := hexSeen + 1;
        continue;
      } else if ch == ':' {
        ReadColon(src, at, was, b[..], out, colon, currentToken, hexSeen, val);
        currentToken := k;
        if hexSeen == 0 {
          if colon >= 0 {
            return InvalidColonUsage, out, colon, slash;
          }
          colon := out;
          continue;
        } else if k == |src| {
          return BadEnding, out, colon, slash;
        }
        if out + 2 > 16 {
          return InvalidRange, out, colon, slash;
        }
        out := PutPair(b, out, val);
        hexSeen := 0;
        val := 0;
        continue;
      } else if ch == '.' && out + 4 <= 16 {
        ghost var before := b[..];
        var status4 := InetPton4V1(src[currentToken..], b, out);
        EndAtQuad(src, at, was, before, b[..], out, colon, currentToken, hexSeen, val);
        if status4 != Valid {
          return OfStatus4(status4), out, colon, slash;
        }
        out := out + 4;
        hexSeen := 0;
        atEnd := true;
        break;
      } else if ch == '/' {
        k := k - 1;
        EndAtSlash(src, at, was, b[..], out, colon, currentToken, hexSeen, val);
        slash := true;
        token := src[currentToken..at];
        atEnd := true;
        break;
      }
      ReadOther(src, at, was, b[..], out, colon, currentToken, hexSeen, val);
      k := k - 1;
      return InvalidChar, out, colon, slash;
    }
    if !atEnd {
      ReadingBounds(src, k, was, b[..], out, colon, currentToken, hexSeen, val);
      EndOfText(src, was, b[..], out, colon, currentToken, hexSeen, val);
      token := src[currentToken..];
    }
    status, out := WriteLastGroup(b, out, hexSeen, val, src, was, colon, token, slash);
  }

  // What follows ReadText: the gap is expanded and the length checked.
  lemma Finished(src: string, was: seq<Octet>, b: seq<Octet>, out: nat, colon: int, slash: bool)
    requires IsRead(src, was, b, out, colon, slash)
    ensures colon >= 0 && out == 16 ==> Parse6(src) == Parsed6(BadEnding, b)
    ensures colon >= 0 && out < 16 ==>
              Parse6(src) == Parsed6(if slash then InvalidChar else Valid6, Spread(b, colon, out))
    ensures colon < 0 ==>
              Parse6(src) == Parsed6(if out != 16 then BadEnding else if slash then InvalidChar else Valid6, b[..out])
  {
    hide Parse6;
    assert out == 16 ==> b[..out] == b;
    if colon >= 0 && out < 16 {
      assert b[..out][..colon] == b[..colon] && b[..out][colon..] == b[colon..out];
    }
  }

  lemma AllHolds(was: seq<Octet>, b: seq<Octet>)
    requires |was| == |b|
    ensures Holds(b, was, 0, b)
  {
    assert was[..0] + b + was[|b|..] == b;
  }

  // using_memmove::inet_pton6
  method InetPton6WithMemmove(src: string, b: array<Octet>) returns (status: Status6)
    requires b.Length == 16
    modifies b
    ensures status == Parse6(src).status && Holds(b[..], old(b[..]), 0, Parse6(src).written)
  {
    hide Parse6, Spread, Holds, IsRead;
    ghost var was := b[..];
    var out, colon, slash;
    status, out, colon, slash := ReadText(src, b);
    if status != Valid6 {
      return;
    }
    ReadBounds(src, was, b[..], out, colon, slash);
    Finished(src, was, b[..], out, colon, slash);
    FailureHolds(was, b[..], out);
    if colon >= 0 {
      if out == 16 {
        AllHolds(was, b[..]);
        return BadEnding;
      }
      ExpandWithMemmove(b, colon, out);
      AllHolds(was, b[..]);
      out := 16;
    }
    if out != 16 {
      return BadEnding;
    }
    if slash {
      return InvalidChar;
    }
    return Valid6;
  }

  // manual_algorithm::inet_pton6
  method InetPton6ByHand(src: string, b: array<Octet>) returns (status: Status6)
    requires b.Length == 16
    modifies b
    ensures status == Parse6(src).status && Holds(b[..], old(b[..]), 0, Parse6(src).written)
  {
    hide Parse6, Spread, Holds, IsRead;
    ghost var was := b[..];
    var out, colon, slash;
    status, out, colon, slash := ReadText(src, b);
    if status != Valid6 {
      return;
    }
    ReadBounds(src, was, b[..], out, colon, slash);
    Finished(src, was, b[..], out, colon, slash);
    FailureHolds(was, b[..], out);
    if colon >= 0 {
      if out == 16 {
        AllHolds(was, b[..]);
        return BadEnding;
      }
      ExpandByHand(b, colon, out);
      AllHolds(was, b[..]);
      out := 16;
    }
    if out != 16 {
      return BadEnding;
    }
    if slash {
      return InvalidChar;
    }
    return Valid6;
  }

  lemma ReadBounds(src: string, was: seq<Octet>, b: seq<Octet>, out: nat, colon: int, slash: bool)
    requires IsRead(src, was, b, out, colon, slash)
    ensures |b| == |was| == 16 && out <= 16 && -1 <= colon <= out && b[out..] == was[out..]
  {
  }
}
