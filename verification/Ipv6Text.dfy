// The text forms of an IPv6 address (section 2.2 of RFC 4291) and their values, and the
// program's one-pass parser as a function over its state.
module Ipv6Text {
  import opened Wrappers
  import opened Ipv4

  // ---------- hexadecimal groups ----------

  // ascii::hex_digit_safe
  function HexDigitSafe(ch: char): (d: int)
    ensures -1 <= d < 16
  {
    if '0' <= ch <= '9' then ch as int - '0' as int
    else if 'a' <= ch <= 'f' then ch as int - 'a' as int + 10
    else if 'A' <= ch <= 'F' then ch as int - 'A' as int + 10
    else -1
  }

  predicate IsHex(s: string) {
    forall i | 0 <= i < |s| :: HexDigitSafe(s[i]) >= 0
  }

  function HexValue(s: string): (v: nat)
    requires IsHex(s)
  {
    if s == [] then 0 else HexValue(s[..|s| - 1]) * 16 + HexDigitSafe(s[|s| - 1])
  }

  lemma {:induction false} HexValueBound(s: string)
    requires IsHex(s) && |s| <= 4
    ensures |s| == 0 ==> HexValue(s) == 0
    ensures |s| == 1 ==> HexValue(s) < 0x10
    ensures |s| == 2 ==> HexValue(s) < 0x100
    ensures |s| == 3 ==> HexValue(s) < 0x1000
    ensures HexValue(s) < 0x1_0000
  {
    if s == [] {
    } else {
      HexValueBound(s[..|s| - 1]);
    }
  }

  // A group of an address: one to four hexadecimal digits.
  predicate IsGroup(s: string) {
    1 <= |s| <= 4 && IsHex(s)
  }

  function GroupOctets(s: string): (o: seq<Octet>)
    requires |s| <= 4 && IsHex(s)
    ensures |o| == 2
  {
    HexValueBound(s);
    [HexValue(s) / 256, HexValue(s) % 256]
  }

  // ---------- the grammar ----------

  // Groups before the gap, whether there is a gap, groups after it, and a dotted-quad ending.
  // Without a gap all groups are in left.
  datatype Form = Form(left: seq<string>, gap: bool, right: seq<string>, quad: seq<Octet>)

  predicate AreGroups(g: seq<string>) {
    forall i | 0 <= i < |g| :: IsGroup(g[i])
  }

  // The number of octets written out.
  function Width(f: Form): nat {
    2 * |f.left| + 2 * |f.right| + |f.quad|
  }

  ghost predicate IsForm(f: Form) {
    && AreGroups(f.left) && AreGroups(f.right)
    && (f.quad == [] || |f.quad| == 4)
    && (if f.gap then Width(f) < 16 else f.right == [] && Width(f) == 16)
  }

  // Groups separated by colons, then the dotted quad if there is one.
  function Joined(g: seq<string>, quad: seq<Octet>): string
    requires quad == [] || |quad| == 4
  {
    if g == [] then (if quad == [] then "" else Dotted(quad))
    else if |g| == 1 && quad == [] then g[0]
    else g[0] + ":" + Joined(g[1..], quad)
  }

  function Text(f: Form): string
    requires f.quad == [] || |f.quad| == 4
  {
    if f.gap then Joined(f.left, []) + "::" + Joined(f.right, f.quad) else Joined(f.left, f.quad)
  }

  function GroupsOctets(g: seq<string>): (o: seq<Octet>)
    requires AreGroups(g)
    ensures |o| == 2 * |g|
  {
    if g == [] then []
    else
      assert IsGroup(g[0]);
      GroupOctets(g[0]) + GroupsOctets(g[1..])
  }

  function Zeros(n: nat): seq<Octet> {
    seq(n, _ => 0)
  }

  // The sixteen octets that a form stands for.
  function Value(f: Form): (o: seq<Octet>)
    requires IsForm(f)
    ensures |o| == 16
  {
    GroupsOctets(f.left) + Zeros(16 - Width(f)) + GroupsOctets(f.right) + f.quad
  }

  // ---------- the parser, as a function ----------

  datatype Status6 = Valid6 | BadEnding | InvalidColonUsage | InvalidRange | InvalidChar

  // Octets written, where a gap was seen among them, and the hexadecimal digits of the open group.
  datatype State = State(out: seq<Octet>, colon: Option<nat>, token: string)

  // The status and the octets that the parser has written at the front of its buffer.
  datatype Parsed6 = Parsed6(status: Status6, written: seq<Octet>)

  function OfStatus4(s: Status): Status6 {
    match s
    case Valid => Valid6
    case TooLittleOctets => BadEnding
    case TooManyOctets => BadEnding
    case InvalidLeadingZero => BadEnding
    case InvalidOctetRange => InvalidRange
    case InvalidCharacter => InvalidChar
  }

  ghost predicate IsState(st: State) {
    && |st.out| <= 16 && |st.token| <= 4 && IsHex(st.token)
    && (st.colon.Some? ==> st.colon.value <= |st.out|)
  }

  // Moving what follows the gap to the end and filling the gap with zeros.
  function Expanded(out: seq<Octet>, colon: nat): (o: seq<Octet>)
    requires colon <= |out| <= 16
    ensures |o| == 16
  {
    out[..colon] + Zeros(16 - |out|) + out[colon..]
  }

  // What follows the loop: the open group, the gap, and the checks at the end.
  function Finish(st: State, slash: bool): Parsed6
    requires IsState(st)
  {
    if st.token != [] && |st.out| + 2 > 16 then Parsed6(InvalidRange, st.out)
    else
      var out := if st.token == [] then st.out else st.out + GroupOctets(st.token);
      if st.colon.Some? && |out| == 16 then Parsed6(BadEnding, out)
      else
        var full := if st.colon.Some? then Expanded(out, st.colon.value) else out;
        if |full| != 16 then Parsed6(BadEnding, full)
        else if slash then Parsed6(InvalidChar, full)
        else Parsed6(Valid6, full)
  }

  function Scan(st: State, s: string): Parsed6
    requires IsState(st)
    decreases |s|
  {
    if s == [] then Finish(st, false)
    else if HexDigitSafe(s[0]) >= 0 then
      if |st.token| == 4 then Parsed6(InvalidRange, st.out)
      else Scan(State(st.out, st.colon, st.token + [s[0]]), s[1..])
    else if s[0] == ':' then
      if st.token == [] then
        if st.colon.Some? then Parsed6(InvalidColonUsage, st.out)
        else Scan(State(st.out, Some(|st.out|), []), s[1..])
      else if |s| == 1 then Parsed6(BadEnding, st.out)
      else if |st.out| + 2 > 16 then Parsed6(InvalidRange, st.out)
      else Scan(State(st.out + GroupOctets(st.token), st.colon, []), s[1..])
    else if s[0] == '.' && |st.out| + 4 <= 16 then
      var quad := Parse(st.token + s);
      if quad.status == Valid then Finish(State(st.out + quad.octets, st.colon, []), false)
      else Parsed6(OfStatus4(quad.status), st.out + quad.octets)
    else if s[0] == '/' then Finish(st, true)
    else Parsed6(InvalidChar, st.out)
  }

  // inet_pton6
  function Parse6(s: string): Parsed6 {
    if s == [] then Parsed6(BadEnding, [])
    else if s[0] == ':' then
      if |s| == 1 || s[1] != ':' then Parsed6(InvalidColonUsage, [])
      else Scan(State([], None, []), s[1..])
    else Scan(State([], None, []), s)
  }
}
