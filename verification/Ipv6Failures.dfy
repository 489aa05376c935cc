// What inet_pton6 reports about a text it does not accept: what has been read when it stops, and
// which character or which lack of characters the status names.
module Ipv6Failures {
  import opened Wrappers
  import opened Sequences
  import opened Ipv4
  import opened Ipv6Text
  import opened Ipv6Printing

  // Groups before the gap, whether the gap has been read, groups after it, the open group.
  datatype Reading = Reading(left: seq<string>, gap: bool, right: seq<string>, token: string)

  ghost predicate IsReading(r: Reading) {
    && AreGroups(r.left) && AreGroups(r.right) && (r.gap || r.right == [])
    && |r.token| <= 4 && IsHex(r.token) && 2 * |r.left| + 2 * |r.right| <= 16
  }

  // The text that has been read: a colon after every group, and one more for the gap, or both of
  // its colons where no group comes first.
  function Spelled(r: Reading): string {
    Terminated(r.left) + (if !r.gap then "" else if r.left == [] then "::" else ":") + Terminated(r.right) + r.token
  }

  function Octets(r: Reading): (o: seq<Octet>)
    requires AreGroups(r.left) && AreGroups(r.right)
    ensures |o| == 2 * |r.left| + 2 * |r.right|
  {
    GroupsOctets(r.left) + GroupsOctets(r.right)
  }

  function StateOf(r: Reading): State
    requires AreGroups(r.left) && AreGroups(r.right)
  {
    State(Octets(r), if r.gap then Some(2 * |r.left|) else None, r.token)
  }

  // The text is complete, or goes on with a slash, after the octets w; the first n of them come
  // before the gap.
  ghost predicate EndsWith(w: seq<Octet>, gap: bool, n: nat, slash: bool, p: Parsed6)
    requires n <= |w| <= 16
  {
    var good := if slash then InvalidChar else Valid6;
    if gap then
      if |w| == 16 then p == Parsed6(BadEnding, w)
      else p == Parsed6(good, w[..n] + Zeros(16 - |w|) + w[n..])
    else
      p == Parsed6(if |w| == 16 then good else BadEnding, w)
  }

  ghost predicate EndsAfter(r: Reading, slash: bool, p: Parsed6)
    requires IsReading(r)
  {
    var o := Octets(r);
    if r.token == [] then EndsWith(o, r.gap, 2 * |r.left|, slash, p)
    else if |o| == 16 then p == Parsed6(InvalidRange, o)
    else EndsWith(o + GroupOctets(r.token), r.gap, 2 * |r.left|, slash, p)
  }

  // The open group and what follows is to be a dotted quad.
  ghost predicate EndsInQuad4(r: Reading, rest: string, p: Parsed6)
    requires IsReading(r) && |Octets(r)| <= 12
  {
    var o, quad := Octets(r), Parse(r.token + rest);
    match quad.status
    case Valid => EndsWith(o + quad.octets, r.gap, 2 * |r.left|, false, p)
    case InvalidOctetRange => p == Parsed6(InvalidRange, o + quad.octets)
    case InvalidCharacter => p == Parsed6(InvalidChar, o + quad.octets)
    case TooLittleOctets => p == Parsed6(BadEnding, o + quad.octets)
    case TooManyOctets => p == Parsed6(BadEnding, o + quad.octets)
    case InvalidLeadingZero => p == Parsed6(BadEnding, o + quad.octets)
  }

  // Reading stops after r, and the text goes on with rest.
  ghost predicate StopsAt(r: Reading, rest: string, p: Parsed6) {
    && IsReading(r)
    && var o := Octets(r);
       if rest == [] then
         EndsAfter(r, false, p)
       else if HexDigitSafe(rest[0]) >= 0 then
         |r.token| == 4 && p == Parsed6(InvalidRange, o)
       else if rest[0] == ':' then
         if r.token == [] then r.gap && p == Parsed6(InvalidColonUsage, o)
         else if |rest| == 1 then p == Parsed6(BadEnding, o)
         else |o| == 16 && p == Parsed6(InvalidRange, o)
       else if rest[0] == '.' && |o| <= 12 then
         EndsInQuad4(r, rest, p)
       else if rest[0] == '/' then
         EndsAfter(r, true, p)
       else
         p == Parsed6(InvalidChar, o)
  }

  lemma FinishEnds(w: seq<Octet>, gap: bool, n: nat, slash: bool)
    requires n <= |w| <= 16
    ensures EndsWith(w, gap, n, slash, Finish(State(w, if gap then Some(n) else None, []), slash))
  {
  }

  lemma FinishEndsAfter(r: Reading, slash: bool)
    requires IsReading(r)
    ensures EndsAfter(r, slash, Finish(StateOf(r), slash))
  {
    hide GroupsOctets, GroupOctets, EndsWith, HexValue, IsGroup;
    var o := Octets(r);
    if r.token == [] {
      FinishEnds(o, r.gap, 2 * |r.left|, slash);
    } else if |o| < 16 {
      EvenOctets(r);
      FinishEnds(o + GroupOctets(r.token), r.gap, 2 * |r.left|, slash);
    }
  }

  lemma EvenOctets(r: Reading)
    requires IsReading(r) && |Octets(r)| < 16
    ensures |Octets(r)| <= 14
  {
  }

  // ---------- one character more ----------

  lemma {:induction false} TerminatedSnoc(g: seq<string>, s: string)
    ensures Terminated(g + [s]) == Terminated(g) + s + ":"
  {
    if g == [] {
      assert g + [s] == [s] && [s][1..] == [];
    } else {
      TerminatedSnoc(g[1..], s);
      assert (g + [s])[1..] == g[1..] + [s];
      ConcatAssociates(g[0] + ":", Terminated(g[1..]) + s, ":");
      ConcatAssociates(g[0] + ":", Terminated(g[1..]), s);
    }
  }

  lemma {:induction false} OctetsSnoc(g: seq<string>, s: string)
    requires AreGroups(g) && IsGroup(s)
    ensures AreGroups(g + [s]) && GroupsOctets(g + [s]) == GroupsOctets(g) + GroupOctets(s)
  {
    hide HexDigitSafe, HexValue, IsHex;
    forall i | 0 <= i <= |g| ensures IsGroup((g + [s])[i]) {
      assert i < |g| ==> IsGroup(g[i]);
    }
    if g == [] {
      assert g + [s] == [s] && [s][1..] == [];
      assert GroupsOctets([s]) == GroupOctets(s) + GroupsOctets([]);
    } else {
      OctetsSnoc(g[1..], s);
      assert IsGroup(g[0]);
      assert (g + [s])[1..] == g[1..] + [s];
      ConcatAssociates(GroupOctets(g[0]), GroupsOctets(g[1..]), GroupOctets(s));
    }
  }

  // A colon closes the open group.
  function Closed(r: Reading): Reading {
    if r.gap then r.(right := r.right + [r.token], token := []) else r.(left := r.left + [r.token], token := [])
  }

  lemma ClosedIsReading(r: Reading)
    requires IsReading(r) && r.token != [] && |Octets(r)| < 16
    ensures IsReading(Closed(r))
    ensures StateOf(Closed(r)) == State(Octets(r) + GroupOctets(r.token), StateOf(r).colon, [])
    ensures Spelled(Closed(r)) == Spelled(r) + ":"
  {
    hide GroupOctets, GroupsOctets, Terminated;
    assert IsGroup(r.token);
    hide IsGroup, IsHex;
    if r.gap {
      OctetsSnoc(r.right, r.token);
      TerminatedSnoc(r.right, r.token);
      ConcatAssociates(GroupsOctets(r.left), GroupsOctets(r.right), GroupOctets(r.token));
      var pre := Terminated(r.left) + (if r.left == [] then "::" else ":");
      ConcatAssociates(pre, Terminated(r.right) + r.token, ":");
      ConcatAssociates(pre, Terminated(r.right), r.token);
      assert Spelled(Closed(r)) == pre + Terminated(r.right + [r.token]) + [];
      assert pre + Terminated(r.right + [r.token]) + [] == pre + Terminated(r.right + [r.token]);
    } else {
      OctetsSnoc(r.left, r.token);
      TerminatedSnoc(r.left, r.token);
      NoGroups();
      assert Octets(r) == GroupsOctets(r.left) && Octets(Closed(r)) == GroupsOctets(r.left + [r.token]);
      assert Spelled(r) == Terminated(r.left) + r.token;
      assert Spelled(Closed(r)) == Terminated(r.left + [r.token]);
    }
  }

  lemma NoGroups()
    ensures GroupsOctets([]) == [] && Terminated([]) == ""
  {
  }

  lemma GapIsReading(r: Reading)
    requires IsReading(r) && r.token == [] && !r.gap && r.left != []
    ensures var g := r.(gap := true);
      IsReading(g) && StateOf(g) == State(Octets(r), Some(|Octets(r)|), []) && Spelled(g) == Spelled(r) + ":"
  {
    hide GroupsOctets, Terminated, IsGroup;
    NoGroups();
  }

  lemma DigitIsReading(r: Reading, c: char)
    requires IsReading(r) && |r.token| < 4 && HexDigitSafe(c) >= 0
    ensures var g := r.(token := r.token + [c]);
      IsReading(g) && StateOf(g) == State(Octets(r), StateOf(r).colon, r.token + [c]) && Spelled(g) == Spelled(r) + [c]
  {
    hide GroupsOctets, Terminated, IsGroup, HexDigitSafe;
    ConcatAssociates(
      Terminated(r.left) + (if !r.gap then "" else if r.left == [] then "::" else ":") + Terminated(r.right),
      r.token, [c]);
  }

  // ---------- reading to the end ----------

  // Only a text that starts with one colon has a colon where nothing has been read.
  ghost predicate MayGoOn(r: Reading, s: string) {
    r.left == [] && !r.gap && r.token == [] ==> s == [] || s[0] != ':'
  }

  // Whether s is read to its end, or its first character stops the parser.
  predicate StopsHere(r: Reading, s: string)
    requires AreGroups(r.left) && AreGroups(r.right)
  {
    || s == []
    || (HexDigitSafe(s[0]) >= 0 && |r.token| == 4)
    || (s[0] == ':' && (if r.token == [] then r.gap else |s| == 1 || |Octets(r)| == 16))
    || (HexDigitSafe(s[0]) < 0 && s[0] != ':')
  }

  lemma QuadStopsHere(r: Reading, s: string)
    requires IsReading(r) && s != [] && s[0] == '.' && |Octets(r)| <= 12
    ensures IsState(StateOf(r)) && EndsInQuad4(r, s, Scan(StateOf(r), s))
  {
    assert HexDigitSafe('.') < 0;
    hide GroupsOctets, HexDigitSafe, Finish, EndsWith, Run, IsHex, IsGroup, HexValue;
    var quad := Parse(r.token + s);
    if quad.status == Valid {
      var w := Octets(r) + quad.octets;
      assert Scan(StateOf(r), s) == Finish(State(w, StateOf(r).colon, []), false);
      FinishEnds(w, r.gap, 2 * |r.left|, false);
    }
  }

  lemma ScanStopsHere(r: Reading, s: string)
    requires IsReading(r) && StopsHere(r, s)
    ensures IsState(StateOf(r)) && StopsAt(r, s, Scan(StateOf(r), s))
  {
    assert HexDigitSafe(':') < 0;
    hide GroupsOctets, HexDigitSafe, Finish, EndsAfter, EndsInQuad4, Run, Parse, IsHex, IsGroup, HexValue;
    FinishEndsAfter(r, false);
    FinishEndsAfter(r, true);
    if |Octets(r)| < 16 {
      EvenOctets(r);
    }
    if s != [] && s[0] == '.' && |Octets(r)| <= 12 {
      QuadStopsHere(r, s);
    }
  }

  lemma {:induction false} ScanStops(r: Reading, s: string) returns (t: Reading, k: nat)
    requires IsReading(r) && MayGoOn(r, s)
    ensures IsState(StateOf(r)) && k <= |s|
    ensures IsReading(t) && Spelled(r) + s[..k] == Spelled(t) && StopsAt(t, s[k..], Scan(StateOf(r), s))
    decreases |s|
  {
    hide GroupsOctets, HexDigitSafe, StopsAt, Spelled, IsHex, IsGroup, GroupOctets, HexValue;
    if StopsHere(r, s) {
      t, k := r, 0;
      ScanStopsHere(r, s);
      assert s[..0] == [] && s[0..] == s && Spelled(r) + [] == Spelled(r);
    } else {
      var c, rest := s[0], s[1..];
      var next := if HexDigitSafe(c) >= 0 then r.(token := r.token + [c])
                  else if r.token == [] then r.(gap := true) else Closed(r);
      ScanGoesOn(r, s, next);
      t, k := ScanStops(next, rest);
      OneMore(Spelled(r), s, k);
      k := k + 1;
    }
  }

  lemma ScanGoesOn(r: Reading, s: string, next: Reading)
    requires IsReading(r) && MayGoOn(r, s) && !StopsHere(r, s)
    requires next == if HexDigitSafe(s[0]) >= 0 then r.(token := r.token + [s[0]])
                     else if r.token == [] then r.(gap := true) else Closed(r)
    ensures IsState(StateOf(r)) && IsReading(next) && IsState(StateOf(next)) && MayGoOn(next, s[1..])
    ensures Scan(StateOf(r), s) == Scan(StateOf(next), s[1..])
    ensures Spelled(next) == Spelled(r) + [s[0]]
  {
    hide GroupsOctets, Spelled, HexDigitSafe, IsGroup, HexValue;
    if HexDigitSafe(s[0]) >= 0 {
      DigitIsReading(r, s[0]);
    } else if r.token == [] {
      GapIsReading(r);
    } else {
      EvenOctets(r);
      ClosedIsReading(r);
    }
  }

  lemma OneMore(pre: string, s: string, k: nat)
    requires s != [] && k <= |s[1..]|
    ensures pre + s[..k + 1] == pre + [s[0]] + s[1..][..k] && s[k + 1..] == s[1..][k..]
  {
    assert s[..k + 1] == [s[0]] + s[1..][..k];
  }

  // For every text: nothing to read, or one colon at the start; or a first part of it is spelled by
  // groups and perhaps a gap, and what follows decides the status and the octets.
  lemma ParseStops(s: string) returns (t: Reading, k: nat)
    ensures s == [] ==> Parse6(s) == Parsed6(BadEnding, [])
    ensures s != [] && s[0] == ':' && (|s| == 1 || s[1] != ':') ==> Parse6(s) == Parsed6(InvalidColonUsage, [])
    ensures s != [] && !(s[0] == ':' && (|s| == 1 || s[1] != ':')) ==>
              k <= |s| && IsReading(t) && Spelled(t) == s[..k] && StopsAt(t, s[k..], Parse6(s))
  {
    hide StopsAt, Spelled, Scan, Terminated, GroupsOctets;
    t, k := Reading([], false, [], []), 0;
    SpelledAtStart();
    if s == [] || (s[0] == ':' && (|s| == 1 || s[1] != ':')) {
    } else if s[0] == ':' {
      StartWithGap(s);
      t, k := ScanStops(Reading([], true, [], []), s[2..]);
      assert s[..k + 2] == "::" + s[2..][..k] && s[k + 2..] == s[2..][k..];
      k := k + 2;
    } else {
      t, k := ScanStops(t, s);
      assert "" + s[..k] == s[..k];
    }
  }

  lemma SpelledAtStart()
    ensures Spelled(Reading([], false, [], [])) == "" && Spelled(Reading([], true, [], [])) == "::"
    ensures StateOf(Reading([], false, [], [])) == State([], None, [])
    ensures StateOf(Reading([], true, [], [])) == State([], Some(0), [])
  {
    NoGroups();
  }

  lemma StartWithGap(s: string)
    requires |s| > 1 && s[0] == ':' && s[1] == ':'
    ensures Parse6(s) == Scan(State([], Some(0), []), s[2..])
  {
    assert s[1..][1..] == s[2..] && HexDigitSafe(':') < 0;
  }
}
