// When the printers v3, v4, v5 and webpp print the text of the Ada serializer.
module AdaAgreement {
  import opened Sequences
  import opened Ipv4
  import opened Ipv6Text
  import opened Ipv6Printing
  import opened AdaIpv6

  // No zero group, or one run of at least two that is longer than every other.
  ghost predicate HasOneLongestRun(g: Groups) {
    || (forall i | 0 <= i < 8 :: g[i] != 0)
    || (exists at, n :: n >= 2 && IsOnlyLongest(g, at, n))
  }

  ghost predicate IsOnlyLongest(g: Groups, at: int, n: int) {
    && IsZeroRun(g, at, n)
    && (forall i, k | IsZeroRun(g, i, k) :: k < n || (k == n && i == at))
  }

  // ---------- a dotted quad shows ----------

  lemma {:induction false} GroupsHaveNoDot(g: seq<string>)
    requires AreGroups(g)
    ensures '.' !in Joined(g, [])
  {
    if g == [] {
    } else {
      assert IsGroup(g[0]);
      GroupHasNoDot(g[0]);
      if |g| > 1 {
        GroupsHaveNoDot(g[1..]);
      }
    }
  }

  lemma GroupHasNoDot(s: string)
    requires IsGroup(s)
    ensures '.' !in s
  {
    assert HexDigitSafe('.') < 0;
  }

  lemma CompressedHasNoDot(o: seq<Octet>, at: int, n: int)
    requires |o| == 16 && (n == 0 || IsZeroRun(GroupsOf(o), at, n))
    ensures '.' !in Text(CompressedForm(GroupsOf(o), at, n))
  {
    hide Joined, IsGroup, GroupsOf, Value;
    var f := CompressedForm(GroupsOf(o), at, n);
    CompressedFormValue(o, at, n);
    GroupsHaveNoDot(f.left);
    GroupsHaveNoDot(f.right);
  }

  lemma QuadHasDot(o: seq<Octet>, compat: bool)
    requires |o| == 16 && EndsInQuad(o, compat)
    ensures '.' in Ntop6(o, compat)
  {
    hide Joined, GroupsOf, CompressedForm, EndsInQuad;
    var r := LongestRun(GroupsOf(o));
    QuadIsPrinted(o, r.0, r.1, compat);
    var f := PrintedForm(o, r.0, r.1, compat);
    JoinedQuad("ffff", o[12..]);
    DottedHasDot(o[12..]);
    assert Text(f) == Joined([], []) + "::" + Joined(f.right, f.quad);
  }

  lemma DottedHasDot(o: seq<Octet>)
    requires |o| == 4
    ensures '.' in Dotted(o)
  {
    hide Decimal;
    assert '.' in Decimal(o[0]) + ".";
  }

  // ---------- the place of the gap shows ----------

  // Up to a group before the gap, the text is those groups with a colon after each.
  lemma {:induction false} TextUpTo(t: seq<string>, at: int, n: int, i: nat)
    requires |t| == 8 && i < 8 && (n == 0 || (0 < n && i <= at && at + n <= 8))
    ensures TailText(t, at, n, 0) == Terminated(t[..i]) + TailText(t, at, n, i)
  {
    hide TailText;
    if i == 0 {
      assert t[..0] == [];
    } else {
      TextUpTo(t, at, n, i - 1);
      TailGroup(t, at, n, i - 1);
      TerminatedSnoc(t, i - 1);
      var pre, last, tail := Terminated(t[..i - 1]), t[i - 1], TailText(t, at, n, i);
      assert pre + (last + ":" + tail) == pre + last + ":" + tail;
    }
  }

  lemma {:induction false} TerminatedConcat(a: seq<string>, b: seq<string>)
    ensures Terminated(a + b) == Terminated(a) + Terminated(b)
  {
    if a == [] {
      assert a + b == b;
    } else {
      TerminatedConcat(a[1..], b);
      assert (a + b)[1..] == a[1..] + b;
      ConcatAssociates(a[0] + ":", Terminated(a[1..]), Terminated(b));
    }
  }

  lemma TerminatedSnoc(t: seq<string>, i: nat)
    requires i < |t|
    ensures Terminated(t[..i + 1]) == Terminated(t[..i]) + t[i] + ":"
  {
    assert t[..i + 1] == t[..i] + [t[i]];
    TerminatedConcat(t[..i], [t[i]]);
    assert [t[i]][1..] == [];
    assert Terminated([t[i]]) == t[i] + ":";
    ConcatAssociates(Terminated(t[..i]), t[i], ":");
  }

  // A gap at `at` is not to be confused with a gap further right, or none.
  lemma GapShows(t: seq<string>, at: int, n: int, at2: int, n2: int)
    requires |t| == 8 && AreGroups(t) && 0 <= at && 0 < n && at + n <= 8
    requires n2 == 0 || (at < at2 && 0 < n2 && at2 + n2 <= 8)
    ensures (if at == 0 then ":" else "") + TailText(t, at, n, 0) != TailText(t, at2, n2, 0)
  {
    hide TailText, IsGroup;
    TailGroup(t, at2, n2, at);
    TailGap(t, at, n);
    TextUpTo(t, at2, n2, at);
    TextUpTo(t, at, n, at);
    var p := Terminated(t[..at]);
    var r := TailText(t, at2, n2, 0);
    assert IsGroup(t[at]);
    GroupIsNoColon(t[at]);
    assert r == p + (t[at] + ((if at != 7 then ":" else "") + TailText(t, at2, n2, at + 1)));
    assert r[|p|] == t[at][0];
    if at == 0 {
      assert t[..0] == [] && p == "";
      assert (":" + TailText(t, at, n, 0))[0] == ':';
    } else {
      assert TailText(t, at, n, 0) == p + (":" + TailText(t, at, n, at + n));
      assert "" + TailText(t, at, n, 0) == TailText(t, at, n, 0);
      assert TailText(t, at, n, 0)[|p|] == ':';
    }
  }

  lemma GroupIsNoColon(s: string)
    requires IsGroup(s)
    ensures s != [] && s[0] != ':'
  {
    assert HexDigitSafe(':') < 0;
  }

  lemma GapsDiffer(o: seq<Octet>, at: int, n: int, at2: int, n2: int)
    requires |o| == 16 && IsZeroRun(GroupsOf(o), at, n)
    requires n2 == 0 || (at < at2 && IsZeroRun(GroupsOf(o), at2, n2))
    ensures Text(CompressedForm(GroupsOf(o), at, n)) != Text(CompressedForm(GroupsOf(o), at2, n2))
  {
    hide Text, CompressedForm, TailText, HexTexts, GroupsOf, IsGroup;
    var t := HexTexts(GroupsOf(o));
    TextsAreGroups(o, 0, 8);
    assert t[0..8] == t;
    TailStart(GroupsOf(o), at, n);
    TailStart(GroupsOf(o), at2, n2);
    GapShows(t, at, n, at2, n2);
    assert "" + TailText(t, at2, n2, 0) == TailText(t, at2, n2, 0);
  }

  // ---------- agreement ----------

  lemma LongestOrNone(g: Groups, at: int, n: int)
    requires IsRightmostLongest(g, at, n)
    ensures n == 0 <==> forall i | 0 <= i < 8 :: g[i] != 0
  {
    if n == 0 {
      forall i | 0 <= i < 8 ensures g[i] != 0 {
        assert g[i] == 0 ==> IsZeroRun(g, i, 1);
      }
    } else {
      assert g[at] == 0;
    }
  }

  // The leftmost and the rightmost longest run are one run exactly when there is one longest run.
  lemma LeftIsRight(g: Groups, at: int, n: int, left: int, m: int)
    requires IsRightmostLongest(g, at, n) && IsLeftmostLongest(g, left, m)
    ensures m == n && (n > 0 ==> left <= at)
    ensures HasOneLongestRun(g) <==> n == 0 || (n >= 2 && left == at)
  {
    LongestOrNone(g, at, n);
    if n >= 2 && left == at {
      assert IsOnlyLongest(g, at, n);
    }
    if a, k :| k >= 2 && IsOnlyLongest(g, a, k) {
      assert k == n && a == at && a == left;
    }
  }

  lemma LeftmostExists(g: Groups, at: int, n: int) returns (left: int)
    requires IsRightmostLongest(g, at, n)
    ensures IsLeftmostLongest(g, left, n)
  {
    left := at;
    if n > 0 {
      left := 0;
      while !IsZeroRun(g, left, n)
        invariant 0 <= left <= at
        invariant forall i | IsZeroRun(g, i, n) :: left <= i
        decreases at - left
      {
        left := left + 1;
      }
    }
  }

  // The printers agree with the serializer exactly when no dotted quad ends the text and one run
  // of at least two zero groups is longer than every other, or there is no zero group.
  lemma PrinterAgrees(o: seq<Octet>, compat: bool)
    requires |o| == 16
    ensures IsAdaText(GroupsOf(o), Ntop6(o, compat)) <==> !EndsInQuad(o, compat) && HasOneLongestRun(GroupsOf(o))
  {
    hide Text, CompressedForm, GroupsOf, EndsInQuad, HasOneLongestRun, IsRightmostLongest, IsLeftmostLongest;
    var g := GroupsOf(o);
    var r := LongestRun(g);
    var left := LeftmostExists(g, r.0, r.1);
    AdaTextIs(o, left, r.1, Ntop6(o, compat));
    LeftIsRight(g, r.0, r.1, left, r.1);
    QuadIsPrinted(o, r.0, r.1, compat);
    LeftmostIsRun(g, left, r.1);
    RightmostIsRun(g, r.0, r.1);
    if EndsInQuad(o, compat) {
      QuadHasDot(o, compat);
      CompressedHasNoDot(o, left, if r.1 <= 1 then 0 else r.1);
    } else if r.1 == 0 {
      NothingLeftOut(g, r.0, left);
    } else if r.1 == 1 {
      GapsDiffer(o, r.0, 1, left, 0);
    } else if left < r.0 {
      GapsDiffer(o, left, r.1, r.0, r.1);
    }
  }

  lemma LeftmostIsRun(g: Groups, at: int, n: int)
    requires IsLeftmostLongest(g, at, n)
    ensures n == 0 || IsZeroRun(g, at, n)
  {
  }

  lemma RightmostIsRun(g: Groups, at: int, n: int)
    requires IsRightmostLongest(g, at, n)
    ensures n == 0 || IsZeroRun(g, at, n)
  {
  }

  lemma AdaTextIs(o: seq<Octet>, left: int, n: int, s: string)
    requires |o| == 16 && IsLeftmostLongest(GroupsOf(o), left, n)
    ensures IsAdaText(GroupsOf(o), s) <==> s == Compressed(GroupsOf(o), left, n)
  {
    hide Text, CompressedForm, GroupsOf, Compressed;
    if IsAdaText(GroupsOf(o), s) {
      assert IsAdaText(GroupsOf(o), Compressed(GroupsOf(o), left, n));
      AdaTextIsUnique(GroupsOf(o), s, Compressed(GroupsOf(o), left, n));
    }
  }
}
