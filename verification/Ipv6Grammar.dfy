// The parser accepts exactly the text forms of the grammar, with the grammar's value.
module Ipv6Grammar {
  import opened Wrappers
  import opened Sequences
  import opened Ipv4
  import opened Ipv6Text

  // ---------- what is accepted is in the grammar ----------

  // How the rest of a text is made up when its first group is already partly read.
  datatype Rest = Rest(groups: seq<string>, quad: seq<Octet>)

  ghost predicate IsRest(r: Rest) {
    AreGroups(r.groups) && (r.quad == [] || |r.quad| == 4)
  }

  function RestOctets(r: Rest): (o: seq<Octet>)
    requires IsRest(r)
    ensures |o| == 2 * |r.groups| + |r.quad|
  {
    GroupsOctets(r.groups) + r.quad
  }

  lemma QuadIsRest(st: State, s: string)
    requires IsState(st) && Parse(st.token + s).status == Valid
    ensures st.token + s == Dotted(Parse(st.token + s).octets)
  {
    ParseAcceptsDotted(st.token + s, Parse(st.token + s).octets);
  }

  lemma JoinedCons(g: string, r: Rest)
    requires r.quad == [] || |r.quad| == 4
    requires Joined(r.groups, r.quad) != []
    ensures Joined([g] + r.groups, r.quad) == g + ":" + Joined(r.groups, r.quad)
  {
    assert ([g] + r.groups)[1..] == r.groups;
  }

  lemma GroupsCons(g: string, groups: seq<string>)
    requires IsGroup(g) && AreGroups(groups)
    ensures AreGroups([g] + groups)
    ensures GroupsOctets([g] + groups) == GroupOctets(g) + GroupsOctets(groups)
  {
    assert ([g] + groups)[1..] == groups;
  }

  lemma JoinedOne(g: string)
    requires IsGroup(g)
    ensures AreGroups([g]) && Joined([g], []) == g && GroupsOctets([g]) == GroupOctets(g)
  {
    assert GroupsOctets([g]) == GroupOctets(g) + [];
  }

  // The open group and s together are the text of r, and w is the address they complete.
  ghost predicate Completes(st: State, s: string, r: Rest, w: seq<Octet>)
    requires IsState(st) && st.colon.Some?
  {
    && IsRest(r) && st.token + s == Joined(r.groups, r.quad)
    && |st.out| + |RestOctets(r)| < 16
    && w == Expanded(st.out + RestOctets(r), st.colon.value)
  }

  lemma EndCompletes(st: State) returns (r: Rest)
    requires IsState(st) && st.colon.Some? && Finish(st, false).status == Valid6
    ensures Completes(st, "", r, Finish(st, false).written)
  {
    if st.token == [] {
      r := Rest([], []);
      assert RestOctets(r) == [] && st.out + [] == st.out;
    } else {
      JoinedOne(st.token);
      r := Rest([st.token], []);
      assert RestOctets(r) == GroupOctets(st.token);
      assert st.token + "" == st.token;
    }
  }

  lemma QuadCompletes(st: State, s: string) returns (r: Rest)
    requires IsState(st) && st.colon.Some? && |st.out| + 4 <= 16
    requires Parse(st.token + s).status == Valid
    requires Finish(State(st.out + Parse(st.token + s).octets, st.colon, []), false).status == Valid6
    ensures Completes(st, s, r, Finish(State(st.out + Parse(st.token + s).octets, st.colon, []), false).written)
  {
    hide Parse, Dotted;
    QuadIsRest(st, s);
    r := Rest([], Parse(st.token + s).octets);
    assert RestOctets(r) == r.quad;
  }

  lemma ColonCompletes(st: State, s: string, q: Rest, w: seq<Octet>)
    requires IsState(st) && st.colon.Some? && st.token != [] && |st.out| + 2 <= 16 && |s| > 1 && s[0] == ':'
    requires Completes(State(st.out + GroupOctets(st.token), st.colon, []), s[1..], q, w)
    ensures Completes(st, s, Rest([st.token] + q.groups, q.quad), w)
  {
    hide Dotted, GroupOctets, Joined, GroupsOctets, Expanded;
    assert [] + s[1..] == s[1..];
    GroupsCons(st.token, q.groups);
    JoinedCons(st.token, q);
    ConcatAssociates(st.token, ":", s[1..]);
    assert s == ":" + s[1..];
    Regroup4(st.out, GroupOctets(st.token), GroupsOctets(q.groups), q.quad);
  }

  // After the gap: the rest of an accepted text is groups and perhaps a dotted quad.
  lemma {:induction false} AfterGap(st: State, s: string) returns (r: Rest)
    requires IsState(st) && st.colon.Some? && Scan(st, s).status == Valid6
    ensures Completes(st, s, r, Scan(st, s).written)
    decreases |s|
  {
    hide Finish, Parse, GroupOctets, RestOctets, Joined;
    if s == [] {
      r := EndCompletes(st);
    } else if HexDigitSafe(s[0]) >= 0 {
      r := AfterGap(State(st.out, st.colon, st.token + [s[0]]), s[1..]);
      assert st.token + [s[0]] + s[1..] == st.token + s;
    } else if s[0] == ':' {
      var q := AfterGap(State(st.out + GroupOctets(st.token), st.colon, []), s[1..]);
      ColonCompletes(st, s, q, Scan(st, s).written);
      r := Rest([st.token] + q.groups, q.quad);
    } else if s[0] == '.' {
      r := QuadCompletes(st, s);
    } else {
      SlashIsInvalid(st);
    }
  }

  lemma SlashIsInvalid(st: State)
    requires IsState(st)
    ensures Finish(st, true).status != Valid6
  {
  }

  // Before any gap: the text from the start of the open group on, as a form without its first groups.
  function TextFrom(f: Form): string
    requires f.quad == [] || |f.quad| == 4
  {
    if !f.gap then Joined(f.left, f.quad)
    else if f.left == [] then ":" + Joined(f.right, f.quad)
    else Text(f)
  }

  ghost predicate IsTail(f: Form) {
    AreGroups(f.left) && AreGroups(f.right) && (f.quad == [] || |f.quad| == 4) && (f.gap || f.right == [])
  }

  // The octets of an address whose first octets are out and whose text goes on as f.
  function Completed(out: seq<Octet>, f: Form): (o: seq<Octet>)
    requires IsTail(f) && |out| + Width(f) <= 16
  {
    out + GroupsOctets(f.left) + Zeros(16 - |out| - Width(f)) + GroupsOctets(f.right) + f.quad
  }

  // The open group and s together are the text of f, and w is the address they complete.
  ghost predicate Starts(st: State, s: string, f: Form, w: seq<Octet>)
    requires IsState(st)
  {
    && IsTail(f) && st.token + s == TextFrom(f)
    && (if f.gap then |st.out| + Width(f) < 16 else |st.out| + Width(f) == 16)
    && w == Completed(st.out, f)
  }

  lemma EndStarts(st: State) returns (f: Form)
    requires IsState(st) && st.colon.None? && Finish(st, false).status == Valid6
    ensures Starts(st, "", f, Finish(st, false).written)
  {
    assert st.token + "" == st.token;
    if st.token == [] {
      f := Form([], false, [], []);
      assert Completed(st.out, f) == st.out;
    } else {
      JoinedOne(st.token);
      f := Form([st.token], false, [], []);
      assert Completed(st.out, f) == st.out + GroupOctets(st.token);
    }
  }

  lemma QuadStarts(st: State, s: string) returns (f: Form)
    requires IsState(st) && st.colon.None? && |st.out| + 4 <= 16
    requires Parse(st.token + s).status == Valid
    requires Finish(State(st.out + Parse(st.token + s).octets, None, []), false).status == Valid6
    ensures Starts(st, s, f, Finish(State(st.out + Parse(st.token + s).octets, None, []), false).written)
  {
    hide Parse, Dotted;
    QuadIsRest(st, s);
    var quad := Parse(st.token + s).octets;
    f := Form([], false, [], quad);
    assert Completed(st.out, f) == st.out + quad;
  }

  lemma GapStarts(st: State, s: string, r: Rest, w: seq<Octet>)
    requires IsState(st) && st.colon.None? && st.token == [] && s != [] && s[0] == ':'
    requires Completes(State(st.out, Some(|st.out|), []), s[1..], r, w)
    ensures Starts(st, s, Form([], true, r.groups, r.quad), w)
  {
    hide Dotted, Joined, Expanded;
    GapOctets(st.out, GroupsOctets(r.groups), r.quad);
    assert [] + s[1..] == s[1..] && s == ":" + s[1..] && [] + s == s;
  }

  lemma GapOctets(out: seq<Octet>, groups: seq<Octet>, quad: seq<Octet>)
    requires |out| + |groups| + |quad| <= 16
    ensures Expanded(out + (groups + quad), |out|) ==
            out + [] + Zeros(16 - |out| - |groups| - |quad|) + groups + quad
  {
    hide Zeros;
    var o, zeros := out + (groups + quad), Zeros(16 - |out| - |groups| - |quad|);
    assert o[..|out|] == out && o[|out|..] == groups + quad;
    assert out + [] == out;
    ConcatAssociates(out + zeros, groups, quad);
  }

  lemma TextCons(g: string, f: Form)
    requires IsTail(f) && IsGroup(g) && TextFrom(f) != []
    ensures TextFrom(f.(left := [g] + f.left)) == g + ":" + TextFrom(f)
  {
    hide Joined, IsGroup;
    var right := Joined(f.right, f.quad);
    if !f.gap {
      JoinedCons(g, Rest(f.left, f.quad));
    } else if f.left == [] {
      assert [g] + [] == [g];
      JoinedOne(g);
      SplitGap(g, right);
    } else {
      var left := Joined(f.left, []);
      JoinedIsNotEmpty(f.left, []);
      JoinedCons(g, Rest(f.left, []));
      ConcatAssociates(g + ":", left, "::");
      ConcatAssociates(g + ":", left + "::", right);
    }
  }

  lemma ColonStarts(st: State, s: string, f: Form, w: seq<Octet>)
    requires IsState(st) && st.colon.None? && st.token != [] && |st.out| + 2 <= 16 && |s| > 1 && s[0] == ':'
    requires Starts(State(st.out + GroupOctets(st.token), None, []), s[1..], f, w)
    ensures Starts(st, s, f.(left := [st.token] + f.left), w)
  {
    hide Dotted, GroupOctets, Joined, GroupsOctets, TextFrom, Zeros;
    var g := f.(left := [st.token] + f.left);
    assert [] + s[1..] == s[1..];
    GroupsCons(st.token, f.left);
    TextCons(st.token, f);
    ConcatAssociates(st.token, ":", s[1..]);
    assert s == ":" + s[1..];
    ConcatAssociates(st.out, GroupOctets(st.token), GroupsOctets(f.left));
    assert Width(g) == Width(f) + 2;
  }

  // Before any gap: the rest of an accepted text is the rest of a form.
  lemma {:induction false} BeforeGap(st: State, s: string) returns (f: Form)
    requires IsState(st) && st.colon.None? && Scan(st, s).status == Valid6
    ensures Starts(st, s, f, Scan(st, s).written)
    decreases |s|
  {
    hide Finish, Parse, GroupOctets, Completed, TextFrom, Completes;
    if s == [] {
      f := EndStarts(st);
    } else if HexDigitSafe(s[0]) >= 0 {
      f := BeforeGap(State(st.out, st.colon, st.token + [s[0]]), s[1..]);
      assert st.token + [s[0]] + s[1..] == st.token + s;
    } else if s[0] == ':' && st.token == [] {
      var r := AfterGap(State(st.out, Some(|st.out|), []), s[1..]);
      GapStarts(st, s, r, Scan(st, s).written);
      f := Form([], true, r.groups, r.quad);
    } else if s[0] == ':' {
      var g := BeforeGap(State(st.out + GroupOctets(st.token), st.colon, []), s[1..]);
      ColonStarts(st, s, g, Scan(st, s).written);
      f := g.(left := [st.token] + g.left);
    } else if s[0] == '.' {
      f := QuadStarts(st, s);
    } else {
      SlashIsInvalid(st);
    }
  }

  lemma TailIsForm(f: Form, w: seq<Octet>)
    requires IsTail(f) && (if f.gap then Width(f) < 16 else Width(f) == 16) && w == Completed([], f)
    ensures IsForm(f) && Value(f) == w
  {
    assert [] + GroupsOctets(f.left) == GroupsOctets(f.left);
  }

  lemma JoinedNothing()
    ensures Joined([], []) == ""
  {
  }

  lemma AcceptedIsForm(s: string) returns (f: Form)
    requires Parse6(s).status == Valid6
    ensures IsForm(f) && Text(f) == s && Value(f) == Parse6(s).written
  {
    hide Joined, Dotted, Completed, Completes;
    if s[0] == ':' {
      f := AcceptedFromGap(s);
    } else {
      var st := State([], None, []);
      f := BeforeGap(st, s);
      assert [] + s == s;
      TailIsForm(f, Parse6(s).written);
    }
  }

  lemma AcceptedFromGap(s: string) returns (f: Form)
    requires Parse6(s).status == Valid6 && s[0] == ':'
    ensures IsForm(f) && Text(f) == s && Value(f) == Parse6(s).written
  {
    var st, t := State([], None, []), s[1..];
    assert t[0] == ':' && Parse6(s) == Scan(State([], Some(0), []), t[1..]);
    hide Joined, Dotted, Completed, Completes, Parse6, Scan;
    var w := Parse6(s).written;
    var r := AfterGap(State([], Some(0), []), t[1..]);
    GapStarts(st, t, r, w);
    f := Form([], true, r.groups, r.quad);
    assert [] + t == t && s == ":" + t;
    JoinedNothing();
    assert Text(f) == ":" + (":" + Joined(f.right, f.quad));
    TailIsForm(f, w);
  }

  // ---------- what is in the grammar is accepted ----------

  lemma {:induction false} ScanHex(st: State, h: string, rest: string)
    requires IsState(st) && IsHex(h) && |st.token| + |h| <= 4
    ensures IsHex(st.token + h)
    ensures Scan(st, h + rest) == Scan(State(st.out, st.colon, st.token + h), rest)
    decreases |h|
  {
    if h == [] {
      assert h + rest == rest && st.token + h == st.token;
    } else {
      assert (h + rest)[1..] == h[1..] + rest;
      ScanHex(State(st.out, st.colon, st.token + [h[0]]), h[1..], rest);
      assert st.token + [h[0]] + h[1..] == st.token + h;
    }
  }

  lemma ScanGroup(out: seq<Octet>, colon: Option<nat>, g: string, rest: string)
    requires IsState(State(out, colon, [])) && IsGroup(g)
    ensures Scan(State(out, colon, []), g + rest) == Scan(State(out, colon, g), rest)
  {
    ScanHex(State(out, colon, []), g, rest);
    assert [] + g == g;
  }

  lemma ScanSeparator(out: seq<Octet>, colon: Option<nat>, g: string, rest: string)
    requires IsState(State(out, colon, [])) && IsGroup(g) && |out| + 2 <= 16 && rest != []
    ensures IsState(State(out + GroupOctets(g), colon, []))
    ensures Scan(State(out, colon, []), g + ":" + rest) == Scan(State(out + GroupOctets(g), colon, []), rest)
  {
    hide GroupOctets;
    ScanGroup(out, colon, g, ":" + rest);
    ConcatAssociates(g, ":", rest);
    assert (":" + rest)[1..] == rest;
  }

  lemma {:induction false} DecimalIsHex(n: nat)
    ensures IsHex(Decimal(n))
  {
    assert HexDigitSafe(DigitChar(n % 10)) >= 0;
    if n >= 10 {
      DecimalIsHex(n / 10);
    }
  }

  lemma DecimalLength(n: Octet)
    ensures |Decimal(n)| <= 3
  {
    if n >= 10 {
      assert |Decimal(n)| == |Decimal(n / 10)| + 1;
      if n >= 100 {
        assert |Decimal(n / 10)| == |Decimal(n / 10 / 10)| + 1;
      }
    }
  }

  lemma ScanQuad(out: seq<Octet>, colon: Option<nat>, quad: seq<Octet>)
    requires IsState(State(out, colon, [])) && |quad| == 4 && |out| + 4 <= 16
    ensures Scan(State(out, colon, []), Dotted(quad)) == Finish(State(out + quad, colon, []), false)
  {
    hide Decimal, Run, Parse, Finish;
    var first := Decimal(quad[0]);
    var rest := "." + Decimal(quad[1]) + "." + Decimal(quad[2]) + "." + Decimal(quad[3]);
    assert Dotted(quad) == first + rest;
    DecimalIsHex(quad[0]);
    DecimalLength(quad[0]);
    ScanHex(State(out, colon, []), first, rest);
    assert [] + first == first;
    ParseAcceptsDotted(Dotted(quad), quad);
    assert rest[0] == '.';
  }

  lemma FinishGroup(out: seq<Octet>, colon: Option<nat>, g: string)
    requires IsState(State(out, colon, [])) && IsGroup(g) && |out| + 2 <= 16
    ensures Finish(State(out, colon, g), false) == Finish(State(out + GroupOctets(g), colon, []), false)
  {
  }

  lemma ScanNothing(out: seq<Octet>, colon: Option<nat>, token: string)
    requires IsState(State(out, colon, token))
    ensures Scan(State(out, colon, token), "") == Finish(State(out, colon, token), false)
  {
  }

  lemma GroupsStep(g: seq<string>, quad: seq<Octet>)
    requires AreGroups(g) && g != [] && (quad == [] || |quad| == 4)
    ensures IsGroup(g[0]) && AreGroups(g[1..])
    ensures GroupsOctets(g) == GroupOctets(g[0]) + GroupsOctets(g[1..])
    ensures Joined(g, quad) == if |g| == 1 && quad == [] then g[0] else g[0] + ":" + Joined(g[1..], quad)
    ensures |g| == 1 ==> GroupsOctets(g[1..]) == []
  {
    hide IsGroup, GroupOctets;
    assert IsGroup(g[0]);
  }

  lemma ScanLastGroup(out: seq<Octet>, colon: Option<nat>, g: string)
    requires IsState(State(out, colon, [])) && IsGroup(g) && |out| + 2 <= 16
    ensures Scan(State(out, colon, []), g) == Finish(State(out + GroupOctets(g), colon, []), false)
  {
    hide Scan, Finish, GroupOctets;
    ScanGroup(out, colon, g, "");
    assert g + "" == g;
    FinishGroup(out, colon, g);
    ScanNothing(out, colon, g);
  }

  // Groups, and a dotted quad if there is one, up to the end of the text.
  lemma {:induction false} ScanRest(out: seq<Octet>, colon: Option<nat>, g: seq<string>, quad: seq<Octet>)
    requires IsState(State(out, colon, [])) && AreGroups(g) && (quad == [] || |quad| == 4)
    requires |out| + 2 * |g| + |quad| <= 16
    ensures Scan(State(out, colon, []), Joined(g, quad)) ==
            Finish(State(out + (GroupsOctets(g) + quad), colon, []), false)
    decreases |g|
  {
    if g == [] {
      hide Scan, Finish, GroupOctets, Dotted;
      assert GroupsOctets(g) + quad == quad;
      if quad != [] {
        ScanQuad(out, colon, quad);
      } else {
        assert out + quad == out;
        ScanNothing(out, colon, []);
      }
    } else {
      hide Scan, Finish, GroupOctets, GroupsOctets, Joined, Dotted, IsGroup;
      GroupsStep(g, quad);
      var first, rest := GroupOctets(g[0]), GroupsOctets(g[1..]);
      ConcatAssociates(first, rest, quad);
      ConcatAssociates(out, first, rest + quad);
      if |g| == 1 && quad == [] {
        ScanLastGroup(out, colon, g[0]);
        assert rest + quad == [];
        assert out + first + [] == out + first;
      } else {
        JoinedIsNotEmpty(g[1..], quad);
        ScanSeparator(out, colon, g[0], Joined(g[1..], quad));
        ScanRest(out + first, colon, g[1..], quad);
      }
    }
  }

  lemma JoinedIsNotEmpty(g: seq<string>, quad: seq<Octet>)
    requires AreGroups(g) && (quad == [] || |quad| == 4) && (g != [] || quad != [])
    ensures Joined(g, quad) != []
    ensures g != [] ==> Joined(g, quad)[0] == g[0][0] && HexDigitSafe(g[0][0]) >= 0
    ensures g == [] ==> HexDigitSafe(Joined(g, quad)[0]) >= 0
  {
    if g == [] {
      DecimalIsHex(quad[0]);
    } else {
      assert IsGroup(g[0]);
    }
  }

  lemma ScanGap(out: seq<Octet>, rest: string)
    requires IsState(State(out, None, []))
    ensures Scan(State(out, None, []), ":" + rest) == Scan(State(out, Some(|out|), []), rest)
  {
    assert (":" + rest)[1..] == rest;
  }

  lemma JoinedGap(g: seq<string>, rest: string)
    requires g != []
    ensures Joined(g, []) + "::" + rest ==
            g[0] + ":" + (if |g| == 1 then ":" + rest else Joined(g[1..], []) + "::" + rest)
  {
    var tail := Joined(g[1..], []);
    assert Joined(g, []) == if |g| == 1 then g[0] else g[0] + ":" + tail;
    hide Joined;
    if |g| == 1 {
      SplitGap(g[0], rest);
    } else {
      ConcatAssociates(g[0] + ":", tail, "::");
      ConcatAssociates(g[0] + ":", tail + "::", rest);
    }
  }

  lemma SplitGap(a: string, rest: string)
    ensures a + "::" + rest == a + ":" + (":" + rest)
  {
    assert "::" == ":" + ":";
    ConcatAssociates(a, ":", ":");
    ConcatAssociates(a + ":", ":", rest);
  }

  // Groups up to the gap.
  lemma {:induction false} ScanLeft(out: seq<Octet>, g: seq<string>, rest: string)
    requires AreGroups(g) && g != [] && |out| + 2 * |g| <= 16
    ensures IsState(State(out + GroupsOctets(g), Some(|out| + 2 * |g|), []))
    ensures Scan(State(out, None, []), Joined(g, []) + "::" + rest) ==
            Scan(State(out + GroupsOctets(g), Some(|out| + 2 * |g|), []), rest)
    decreases |g|
  {
    hide GroupOctets, Scan, Joined;
    assert IsGroup(g[0]);
    var next := out + GroupOctets(g[0]);
    JoinedGap(g, rest);
    if |g| == 1 {
      ScanSeparator(out, None, g[0], ":" + rest);
      ScanGap(next, rest);
      assert GroupsOctets(g) == GroupOctets(g[0]);
    } else {
      ScanSeparator(out, None, g[0], Joined(g[1..], []) + "::" + rest);
      ScanLeft(next, g[1..], rest);
      assert next + GroupsOctets(g[1..]) == out + GroupsOctets(g);
    }
  }

  lemma FinishWithGap(o: seq<Octet>, e: seq<Octet>)
    requires |o| + |e| < 16
    ensures Finish(State(o + e, Some(|o|), []), false) == Parsed6(Valid6, o + Zeros(16 - |o| - |e|) + e)
  {
    hide Zeros;
    assert (o + e)[..|o|] == o && (o + e)[|o|..] == e;
  }

  lemma RightIsAccepted(f: Form)
    requires IsForm(f) && f.gap
    ensures Scan(State(GroupsOctets(f.left), Some(2 * |f.left|), []), Joined(f.right, f.quad)) ==
            Parsed6(Valid6, Value(f))
  {
    hide Joined, GroupsOctets, Scan, Finish, Zeros, IsGroup;
    var o, e := GroupsOctets(f.left), GroupsOctets(f.right) + f.quad;
    ScanRest(o, Some(|o|), f.right, f.quad);
    FinishWithGap(o, e);
    ConcatAssociates(o + Zeros(16 - Width(f)), GroupsOctets(f.right), f.quad);
  }

  lemma NoGapIsAccepted(f: Form)
    requires IsForm(f) && !f.gap
    ensures Parse6(Text(f)) == Parsed6(Valid6, Value(f))
  {
    hide Joined, Scan;
    JoinedIsNotEmpty(f.left, f.quad);
    ScanRest([], None, f.left, f.quad);
    assert [] + (GroupsOctets(f.left) + f.quad) == Value(f);
  }

  lemma FormIsAccepted(f: Form)
    requires IsForm(f)
    ensures Parse6(Text(f)) == Parsed6(Valid6, Value(f))
  {
    hide Joined, GroupsOctets, Scan, Value;
    if !f.gap {
      NoGapIsAccepted(f);
    } else {
      var j := Joined(f.right, f.quad);
      RightIsAccepted(f);
      if f.left == [] {
        LeadingGap(j);
        JoinedNothing();
        assert Text(f) == "::" + j;
        assert GroupsOctets(f.left) == [];
      } else {
        JoinedIsNotEmpty(f.left, []);
        ScanLeft([], f.left, j);
        assert [] + GroupsOctets(f.left) == GroupsOctets(f.left);
      }
    }
  }

  lemma LeadingGap(rest: string)
    ensures Parse6("::" + rest) == Scan(State([], Some(0), []), rest)
  {
    var s := "::" + rest;
    assert s[1..] == ":" + rest;
    assert (":" + rest)[1..] == rest;
  }

  // inet_pton6 accepts exactly the text forms of an address, with the value of the form.
  lemma Parse6IsGrammar(s: string, o: seq<Octet>)
    ensures Parse6(s) == Parsed6(Valid6, o) <==> exists f :: IsForm(f) && Text(f) == s && Value(f) == o
  {
    hide Parse6, Text, Value;
    if Parse6(s) == Parsed6(Valid6, o) {
      var f := AcceptedIsForm(s);
    }
    if f :| IsForm(f) && Text(f) == s && Value(f) == o {
      FormIsAccepted(f);
    }
  }
}
