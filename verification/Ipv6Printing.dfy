// What the printers print: groups in hexadecimal without leading zeros, one run of zero groups
// left out, sometimes a dotted quad at the end; and that parsing it gives the address back.
module Ipv6Printing {
  import opened Ipv4
  import opened Ipv6Text
  import opened Ipv6Grammar

  // ---------- hexadecimal text ----------

  const HEX_CHARS: string := "0123456789abcdef"

  function HexChar(d: nat): char
    requires d < 16
  {
    HEX_CHARS[d]
  }

  // Lower-case hexadecimal text without leading zeros.
  function HexText(n: nat): (s: string)
    ensures |s| > 0
  {
    if n < 16 then [HexChar(n)] else HexText(n / 16) + [HexChar(n % 16)]
  }

  lemma HexCharValue(d: nat)
    requires d < 16
    ensures HexDigitSafe(HexChar(d)) == d && HexChar(d) != '\0'
  {
  }

  lemma {:induction false} HexTextValue(n: nat)
    ensures IsHex(HexText(n)) && HexValue(HexText(n)) == n
  {
    HexCharValue(n % 16);
    if n < 16 {
      assert HexText(n)[..0] == [];
    } else {
      HexTextValue(n / 16);
      assert HexText(n)[..|HexText(n)| - 1] == HexText(n / 16);
    }
  }

  lemma HexTextLength(n: nat)
    requires n < 0x1_0000
    ensures |HexText(n)| == if n < 0x10 then 1 else if n < 0x100 then 2 else if n < 0x1000 then 3 else 4
  {
    if n >= 0x10 {
      assert |HexText(n)| == |HexText(n / 16)| + 1;
      if n >= 0x100 {
        assert |HexText(n / 16)| == |HexText(n / 16 / 16)| + 1;
      }
    }
  }

  // Two octets in network order as one number.
  function Number(hi: Octet, lo: Octet): (n: nat)
    ensures n < 0x1_0000
  {
    hi as int * 256 + lo as int
  }

  // The printed text of a group is a group of the grammar, and stands for its own two octets.
  lemma HexTextIsGroup(hi: Octet, lo: Octet)
    ensures IsGroup(HexText(Number(hi, lo))) && GroupOctets(HexText(Number(hi, lo))) == [hi, lo]
  {
    hide HexText, HexValue, IsHex;
    HexTextLength(Number(hi, lo));
    HexTextValue(Number(hi, lo));
  }

  // ---------- groups and runs of zero groups ----------

  type Groups = g: seq<int> | |g| == 8 && forall i | 0 <= i < 8 :: 0 <= g[i] < 0x1_0000 witness seq(8, _ => 0)

  function GroupsOf(o: seq<Octet>): (g: Groups)
    requires |o| == 16
  {
    seq(8, i requires 0 <= i < 8 => Number(o[2 * i], o[2 * i + 1]))
  }

  function HexTexts(g: Groups): (t: seq<string>)
    ensures |t| == 8
  {
    seq(8, i requires 0 <= i < 8 => HexText(g[i]))
  }

  ghost predicate IsZeroRun(g: Groups, at: int, n: int) {
    0 <= at && 0 < n && at + n <= 8 && forall i | at <= i < at + n :: g[i] == 0
  }

  // The longest run of zero groups, the rightmost of several; -1 and 0 if there is no zero group.
  ghost predicate IsRightmostLongest(g: Groups, at: int, n: int) {
    && (forall i, k | IsZeroRun(g, i, k) :: k < n || (k == n && i <= at))
    && (IsZeroRun(g, at, n) || (at == -1 && n == 0))
  }

  // The longest run, the leftmost of several; any place and 0 if there is no zero group.
  ghost predicate IsLeftmostLongest(g: Groups, at: int, n: int) {
    && (forall i, k | IsZeroRun(g, i, k) :: k < n || (k == n && at <= i))
    && (IsZeroRun(g, at, n) || n == 0)
  }

  // There is only one rightmost longest run, so scans that select it in different ways agree.
  lemma RightmostLongestIsUnique(g: Groups, at1: int, n1: int, at2: int, n2: int)
    requires IsRightmostLongest(g, at1, n1) && IsRightmostLongest(g, at2, n2)
    ensures at1 == at2 && n1 == n2
  {
  }

  // A longest run exists: the best of the runs that start at i or later, for any i.
  lemma {:induction false} LongestFrom(g: Groups, i: nat) returns (at: int, n: int, j: nat)
    requires i <= 8
    ensures i + j <= 8 && (forall k | i <= k < i + j :: g[k] == 0) && (i + j < 8 ==> g[i + j] != 0)
    ensures forall s, k | IsZeroRun(g, s, k) && s >= i :: k < n || (k == n && s <= at)
    ensures (IsZeroRun(g, at, n) && at >= i) || (at == -1 && n == 0)
    decreases 8 - i
  {
    if i == 8 {
      at, n, j := -1, 0, 0;
    } else {
      at, n, j := LongestFrom(g, i + 1);
      if g[i] == 0 {
        j := j + 1;
        assert IsZeroRun(g, i, j);
        if j > n {
          at, n := i, j;
        }
      } else {
        j := 0;
      }
    }
  }

  ghost function LongestRun(g: Groups): (r: (int, int))
    ensures IsRightmostLongest(g, r.0, r.1)
  {
    assert exists at, n :: IsRightmostLongest(g, at, n) by {
      var at, n, j := LongestFrom(g, 0);
      assert IsRightmostLongest(g, at, n);
    }
    var at, n :| IsRightmostLongest(g, at, n);
    (at, n)
  }

  // ---------- the text that leaves out a run ----------

  // The form that leaves out the n groups from at on, or nothing if n is 0.
  function CompressedForm(g: Groups, at: int, n: int): Form
    requires n == 0 || (0 <= at && 0 < n && at + n <= 8)
  {
    var t := HexTexts(g);
    if n == 0 then Form(t, false, [], []) else Form(t[..at], true, t[at + n..], [])
  }

  lemma TextsAreGroups(o: seq<Octet>, from: nat, to: nat)
    requires |o| == 16 && from <= to <= 8
    ensures AreGroups(HexTexts(GroupsOf(o))[from..to])
    ensures GroupsOctets(HexTexts(GroupsOf(o))[from..to]) == o[2 * from..2 * to]
    decreases 8 - from
  {
    hide IsGroup, GroupOctets, HexText;
    var t := HexTexts(GroupsOf(o))[from..to];
    if from < to {
      TextsAreGroups(o, from + 1, to);
      HexTextIsGroup(o[2 * from], o[2 * from + 1]);
      assert t[0] == HexText(Number(o[2 * from], o[2 * from + 1]));
      assert t[1..] == HexTexts(GroupsOf(o))[from + 1..to];
      assert o[2 * from..2 * to] == [o[2 * from], o[2 * from + 1]] + o[2 * (from + 1)..2 * to];
    }
  }

  lemma ZeroGroupOctets(o: seq<Octet>, k: nat)
    requires |o| == 16 && k < 8 && GroupsOf(o)[k] == 0
    ensures o[2 * k] == 0 && o[2 * k + 1] == 0
  {
  }

  lemma ZeroRunOctets(o: seq<Octet>, at: nat, n: nat)
    requires |o| == 16 && IsZeroRun(GroupsOf(o), at, n)
    ensures o[2 * at..2 * (at + n)] == Zeros(2 * n)
  {
    hide GroupsOf;
    forall i | 2 * at <= i < 2 * (at + n) ensures o[i] == 0 {
      var k := i / 2;
      assert i == 2 * k || i == 2 * k + 1;
      ZeroGroupOctets(o, k);
    }
  }

  // Leaving out a run of zeros loses nothing.
  lemma CompressedFormValue(o: seq<Octet>, at: int, n: int)
    requires |o| == 16 && (n == 0 || IsZeroRun(GroupsOf(o), at, n))
    ensures IsForm(CompressedForm(GroupsOf(o), at, n)) && Value(CompressedForm(GroupsOf(o), at, n)) == o
  {
    hide HexTexts, GroupsOf, GroupsOctets, IsGroup;
    var t := HexTexts(GroupsOf(o));
    if n == 0 {
      TextsAreGroups(o, 0, 8);
      assert t[0..8] == t && o[0..16] == o;
    } else {
      TextsAreGroups(o, 0, at);
      TextsAreGroups(o, at + n, 8);
      ZeroRunOctets(o, at, n);
      assert t[0..at] == t[..at] && t[at + n..8] == t[at + n..];
      assert o == o[0..2 * at] + o[2 * at..2 * (at + n)] + o[2 * (at + n)..16] + [];
    }
  }

  // The forms printed by inet_ntop6: an IPv4-mapped address, and (with compat) an IPv4-compatible
  // one, end in a dotted quad.
  function PrintedForm(o: seq<Octet>, at: int, n: int, compat: bool): Form
    requires |o| == 16 && (n == 0 || (0 <= at && 0 < n && at + n <= 8))
  {
    if compat && at == 0 && n == 6 then Form([], true, [], o[12..])
    else if at == 0 && n == 5 && o[10] == 0xff && o[11] == 0xff then Form([], true, ["ffff"], o[12..])
    else CompressedForm(GroupsOf(o), at, n)
  }

  lemma PrintedFormValue(o: seq<Octet>, at: int, n: int, compat: bool)
    requires |o| == 16 && (n == 0 || IsZeroRun(GroupsOf(o), at, n))
    ensures IsForm(PrintedForm(o, at, n, compat)) && Value(PrintedForm(o, at, n, compat)) == o
  {
    hide CompressedForm, IsForm, Value;
    if compat && at == 0 && n == 6 {
      CompatFormValue(o);
    } else if at == 0 && n == 5 && o[10] == 0xff && o[11] == 0xff {
      MappedFormValue(o);
    } else {
      CompressedFormValue(o, at, n);
    }
  }

  lemma CompatFormValue(o: seq<Octet>)
    requires |o| == 16 && IsZeroRun(GroupsOf(o), 0, 6)
    ensures var f := Form([], true, [], o[12..]); IsForm(f) && Value(f) == o
  {
    hide GroupsOf;
    ZeroRunOctets(o, 0, 6);
    assert o == [] + o[0..12] + [] + o[12..];
  }

  lemma MappedFormValue(o: seq<Octet>)
    requires |o| == 16 && IsZeroRun(GroupsOf(o), 0, 5) && o[10] == 0xff && o[11] == 0xff
    ensures var f := Form([], true, ["ffff"], o[12..]); IsForm(f) && Value(f) == o
  {
    hide GroupsOf;
    ZeroRunOctets(o, 0, 5);
    HexTextIsGroup(0xff, 0xff);
    assert HexText(0xffff) == "ffff" by {
      assert HexText(0xff) == HexText(0xf) + ['f'] && HexText(0xfff) == HexText(0xff) + ['f'];
    }
    JoinedOne("ffff");
    assert o == [] + o[0..10] + o[10..12] + o[12..];
  }

  // Parsing what is printed gives the address back.
  lemma ParsePrinted(o: seq<Octet>, at: int, n: int, compat: bool)
    requires |o| == 16 && (n == 0 || IsZeroRun(GroupsOf(o), at, n))
    ensures Parse6(Text(PrintedForm(o, at, n, compat))) == Parsed6(Valid6, o)
  {
    hide PrintedForm;
    PrintedFormValue(o, at, n, compat);
    FormIsAccepted(PrintedForm(o, at, n, compat));
  }

  ghost predicate AreZero(o: seq<Octet>) {
    forall i | 0 <= i < |o| :: o[i] == 0
  }

  // Whether the text of an address ends in a dotted quad: with compat, when its first six groups
  // are zero and the seventh is not; in any case when it is IPv4-mapped.
  ghost predicate EndsInQuad(o: seq<Octet>, compat: bool)
    requires |o| == 16
  {
    || (compat && AreZero(o[..12]) && !AreZero(o[12..14]))
    || (AreZero(o[..10]) && o[10] == 0xff && o[11] == 0xff)
  }

  lemma GroupIsZero(o: seq<Octet>, i: nat)
    requires |o| == 16 && i < 8
    ensures GroupsOf(o)[i] == 0 <==> o[2 * i] == 0 && o[2 * i + 1] == 0
  {
    hide Number;
    assert GroupsOf(o)[i] == Number(o[2 * i], o[2 * i + 1]);
    NumberIsZero(o[2 * i], o[2 * i + 1]);
  }

  lemma NumberIsZero(hi: Octet, lo: Octet)
    ensures Number(hi, lo) == 0 <==> hi == 0 && lo == 0
  {
  }

  // The first n groups are zero.
  lemma LeadingZeros(o: seq<Octet>, n: nat)
    requires |o| == 16 && 0 < n <= 8
    ensures AreZero(o[..2 * n]) <==> IsZeroRun(GroupsOf(o), 0, n)
  {
    hide GroupsOf;
    if AreZero(o[..2 * n]) {
      forall i | 0 <= i < n ensures GroupsOf(o)[i] == 0 {
        GroupIsZero(o, i);
      }
    }
    if IsZeroRun(GroupsOf(o), 0, n) {
      ZeroRunOctets(o, 0, n);
      assert o[..2 * n] == o[2 * 0..2 * (0 + n)];
    }
  }

  // A longest run at the front that a group other than zero follows.
  lemma LongestLeads(g: Groups, at: int, n: int, k: int)
    requires IsRightmostLongest(g, at, n) && 5 <= k <= 6
    ensures at == 0 && n == k <==> IsZeroRun(g, 0, k) && g[k] != 0
  {
    if at == 0 && n == k && g[k] == 0 {
      assert IsZeroRun(g, 0, k + 1);
    }
  }

  // The octets tell which of the forms is printed.
  lemma QuadIsPrinted(o: seq<Octet>, at: int, n: int, compat: bool)
    requires |o| == 16 && IsRightmostLongest(GroupsOf(o), at, n)
    ensures EndsInQuad(o, compat) <==>
            (compat && at == 0 && n == 6) || (at == 0 && n == 5 && o[10] == 0xff && o[11] == 0xff)
  {
    hide GroupsOf, IsRightmostLongest, AreZero;
    LeadingZeros(o, 6);
    LeadingZeros(o, 5);
    LongestLeads(GroupsOf(o), at, n, 6);
    LongestLeads(GroupsOf(o), at, n, 5);
    GroupIsZero(o, 5);
    GroupIsZero(o, 6);
    assert AreZero(o[12..14]) <==> o[12] == 0 && o[13] == 0 by {
      TwoAreZero(o, 12);
    }
  }

  lemma TwoAreZero(o: seq<Octet>, i: nat)
    requires i + 2 <= |o|
    ensures AreZero(o[i..i + 2]) <==> o[i] == 0 && o[i + 1] == 0
  {
    assert o[i..i + 2] == [o[i], o[i + 1]];
  }

  // What inet_ntop6 prints for an address.
  ghost function Ntop6(o: seq<Octet>, compat: bool): string
    requires |o| == 16
  {
    var r := LongestRun(GroupsOf(o));
    Text(PrintedForm(o, r.0, r.1, compat))
  }

  // ---------- no printed text is longer than 39 characters ----------

  lemma {:induction false} JoinedLength(g: seq<string>)
    requires AreGroups(g)
    ensures |Joined(g, [])| <= if g == [] then 0 else 5 * |g| - 1
  {
    if g == [] {
    } else {
      assert IsGroup(g[0]);
      if |g| > 1 {
        JoinedLength(g[1..]);
      }
    }
  }

  lemma DottedLength(o: seq<Octet>)
    requires |o| == 4
    ensures |Dotted(o)| <= 15
  {
    hide Decimal;
    DecimalLength(o[0]);
    DecimalLength(o[1]);
    DecimalLength(o[2]);
    DecimalLength(o[3]);
  }

  lemma FormLength(f: Form)
    requires IsForm(f) && (f.quad != [] ==> f.gap && f.left == [] && (f.right == [] || f.right == ["ffff"]))
    ensures |Text(f)| <= 39
  {
    hide Joined, Dotted, IsGroup;
    JoinedLength(f.left);
    if f.quad != [] {
      DottedLength(f.quad);
      JoinedQuad("ffff", f.quad);
    } else {
      JoinedLength(f.right);
    }
  }

  lemma JoinedQuad(g: string, quad: seq<Octet>)
    requires |quad| == 4
    ensures Joined([], quad) == Dotted(quad) && Joined([g], quad) == g + ":" + Dotted(quad)
  {
    hide Dotted;
    assert [g][1..] == [];
  }

  lemma Ntop6Length(o: seq<Octet>, compat: bool)
    requires |o| == 16
    ensures 0 < |Ntop6(o, compat)| <= 39
  {
    hide Text, IsForm, Value, GroupsOf;
    var r := LongestRun(GroupsOf(o));
    PrintedFormValue(o, r.0, r.1, compat);
    FormLength(PrintedForm(o, r.0, r.1, compat));
    ParseOfNtop6(o, compat);
    NothingIsNoAddress();
  }

  lemma NothingIsNoAddress()
    ensures Parse6("").status != Valid6
  {
  }

  // Print, then parse: valid, and the same sixteen octets, for every address.
  lemma ParseOfNtop6(o: seq<Octet>, compat: bool)
    requires |o| == 16
    ensures Parse6(Ntop6(o, compat)) == Parsed6(Valid6, o)
  {
    var r := LongestRun(GroupsOf(o));
    ParsePrinted(o, r.0, r.1, compat);
  }

  // Whatever selects a rightmost longest run prints that text.
  lemma Ntop6Is(o: seq<Octet>, at: int, n: int, compat: bool)
    requires |o| == 16 && IsRightmostLongest(GroupsOf(o), at, n)
    ensures Ntop6(o, compat) == Text(PrintedForm(o, at, n, compat))
    ensures EndsInQuad(o, compat) <==>
            (compat && at == 0 && n == 6) || (at == 0 && n == 5 && o[10] == 0xff && o[11] == 0xff)
  {
    hide PrintedForm, Text;
    var r := LongestRun(GroupsOf(o));
    RightmostLongestIsUnique(GroupsOf(o), at, n, r.0, r.1);
    QuadIsPrinted(o, at, n, compat);
  }

  // An address whose text ends in a dotted quad.
  lemma MappedSample()
    ensures var o: seq<Octet> := [0, 0, 0, 0, 0, 0, 0, 0, 0, 0, 0xff, 0xff, 1, 2, 3, 4];
            EndsInQuad(o, true) && Ntop6(o, true) == "::ffff:1.2.3.4"
  {
    hide GroupsOf, Joined, PrintedForm;
    var o: seq<Octet> := [0, 0, 0, 0, 0, 0, 0, 0, 0, 0, 0xff, 0xff, 1, 2, 3, 4];
    var r := LongestRun(GroupsOf(o));
    assert o[10] == 0xff && o[11] == 0xff && AreZero(o[..10]) && !AreZero(o[..12]) by {
      assert o[..12][10] == 0xff;
    }
    QuadIsPrinted(o, r.0, r.1, false);
    MappedSampleText(o);
  }

  lemma MappedSampleText(o: seq<Octet>)
    requires |o| == 16 && o[10] == 0xff && o[11] == 0xff && o[12..] == [1, 2, 3, 4]
    ensures Text(PrintedForm(o, 0, 5, true)) == "::ffff:1.2.3.4"
  {
    hide Joined;
    JoinedNothing();
    JoinedQuad("ffff", o[12..]);
    assert Dotted(o[12..]) == "1.2.3.4";
  }

  // ---------- the text from a group on, as the printing loops produce it ----------

  function Terminated(t: seq<string>): string {
    if t == [] then "" else t[0] + ":" + Terminated(t[1..])
  }

  // What is still to be written when group i is next and the run from at on is left out.
  function TailText(t: seq<string>, at: int, n: int, i: nat): string
    requires |t| == 8 && (n == 0 || (0 <= at && 0 < n && at + n <= 8)) && i <= 8
  {
    if n > 0 && i <= at then Terminated(t[i..at]) + ":" + Joined(t[at + n..], []) else Joined(t[i..], [])
  }

  lemma {:induction false} TerminatedIsJoined(t: seq<string>)
    requires t != []
    ensures Terminated(t) == Joined(t, []) + ":"
  {
    if |t| > 1 {
      TerminatedIsJoined(t[1..]);
    }
  }

  lemma TailStart(g: Groups, at: int, n: int)
    requires n == 0 || (0 <= at && 0 < n && at + n <= 8)
    ensures Text(CompressedForm(g, at, n)) ==
            (if n > 0 && at == 0 then ":" else "") + TailText(HexTexts(g), at, n, 0)
  {
    hide HexTexts;
    var t := HexTexts(g);
    if n == 0 {
      assert t[0..] == t;
    } else if at > 0 {
      assert t[0..at] == t[..at];
      TerminatedIsJoined(t[..at]);
    } else {
      assert t[0..0] == [];
    }
  }

  // Writing a group that is not in the run, and a colon unless it is the last.
  lemma TailGroup(t: seq<string>, at: int, n: int, i: nat)
    requires |t| == 8 && (n == 0 || (0 <= at && 0 < n && at + n <= 8)) && i < 8
    requires n == 0 || i < at || at + n <= i
    ensures TailText(t, at, n, i) == t[i] + (if i != 7 then ":" else "") + TailText(t, at, n, i + 1)
  {
    hide Terminated, Joined;
    if n > 0 && i < at {
      TerminatedStep(t, i, at);
      var rest, after := Terminated(t[i + 1..at]), Joined(t[at + n..], []);
      assert t[i] + ":" + rest + ":" + after == t[i] + ":" + (rest + ":" + after);
    } else {
      JoinedStep(t, i);
    }
  }

  lemma TerminatedStep(t: seq<string>, i: nat, at: nat)
    requires i < at <= |t|
    ensures Terminated(t[i..at]) == t[i] + ":" + Terminated(t[i + 1..at])
  {
    assert t[i..at][1..] == t[i + 1..at];
  }

  lemma JoinedStep(t: seq<string>, i: nat)
    requires i < |t|
    ensures Joined(t[i..], []) == t[i] + (if i != |t| - 1 then ":" else "") + Joined(t[i + 1..], [])
  {
    assert t[i..][1..] == t[i + 1..];
    if i == |t| - 1 {
      assert t[i + 1..] == [];
    }
  }

  lemma TailGap(t: seq<string>, at: int, n: int)
    requires |t| == 8 && 0 <= at && 0 < n && at + n <= 8
    ensures TailText(t, at, n, at) == ":" + TailText(t, at, n, at + n)
  {
    assert t[at..at] == [];
  }

  lemma TailEnd(t: seq<string>, at: int, n: int)
    requires |t| == 8 && (n == 0 || (0 <= at && 0 < n && at + n <= 8))
    ensures TailText(t, at, n, 8) == ""
  {
    assert t[8..] == [];
  }
}
