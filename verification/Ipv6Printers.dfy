// The inet_ntop6 printers as the program runs them, writing through the caller's buffer.
module Ipv6Printers {
  import opened Ipv4
  import opened Ipv4Routines
  import opened Ipv6Text
  import opened Ipv6Grammar
  import opened Ipv6Printing
  import opened Sequences

  // ---------- the table of hexadecimal groups ----------

  // Entry i of the table holds the text of group i, ended by a null character.
  ghost predicate HoldsGroup(hexa: seq<char>, i: nat, text: string) {
    && 5 * i + 5 <= |hexa| && |text| <= 4 && '\0' !in text
    && hexa[5 * i..5 * i + |text|] == text && hexa[5 * i + |text|] == '\0'
  }

  lemma HexTextHasNoNull(n: nat)
    ensures '\0' !in HexText(n)
  {
    HexCharValue(n % 16);
    if n >= 16 {
      HexTextHasNoNull(n / 16);
    }
  }

  // Entry i while it is being written: the text so far, and nothing but null characters after it.
  ghost predicate Filling(hexa: seq<char>, i: nat, p: nat, text: string) {
    && 5 * i + 5 <= |hexa| && |text| <= 4 && p == 5 * i + |text|
    && hexa[5 * i..p] == text && forall k | p <= k < 5 * i + 5 :: hexa[k] == '\0'
  }

  ghost predicate SameOutside(now: seq<char>, was: seq<char>, i: nat) {
    |now| == |was| && forall k | 0 <= k < |now| && !(5 * i <= k < 5 * i + 5) :: now[k] == was[k]
  }

  // *octet_ptr++ = hex_chars[d]
  method PutDigit(hexa: array<char>, p: nat, d: nat, ghost i: nat, ghost text: string) returns (next: nat)
    requires d < 16 && Filling(hexa[..], i, p, text) && |text| < 4
    modifies hexa
    ensures next == p + 1 && Filling(hexa[..], i, next, text + [HexChar(d)])
    ensures SameOutside(hexa[..], old(hexa[..]), i)
  {
    hide HexChar;
    hexa[p] := HexChar(d);
    next := p + 1;
  }

  method ClearEntry(hexa: array<char>, i: nat)
    requires 5 * i + 5 <= hexa.Length
    modifies hexa
    ensures Filling(hexa[..], i, 5 * i, []) && SameOutside(hexa[..], old(hexa[..]), i)
  {
    var p := 5 * i;
    hexa[p], hexa[p + 1], hexa[p + 2], hexa[p + 3], hexa[p + 4] := '\0', '\0', '\0', '\0', '\0';
  }

  lemma OutsideTransitive(a: seq<char>, b: seq<char>, c: seq<char>, i: nat)
    requires SameOutside(a, b, i) && SameOutside(b, c, i)
    ensures SameOutside(a, c, i)
  {
  }

  lemma Filled(hexa: seq<char>, i: nat, p: nat, n: nat)
    requires Filling(hexa, i, p, HexText(n))
    ensures HoldsGroup(hexa, i, HexText(n))
  {
    HexTextHasNoNull(n);
  }

  // The text of the group hi, lo: leading zero digits skipped, the last digit always written.
  method WriteGroup(hexa: array<char>, i: nat, hi: Octet, lo: Octet)
    requires 5 * i + 5 <= hexa.Length
    modifies hexa
    ensures HoldsGroup(hexa[..], i, HexText(Number(hi, lo)))
    ensures SameOutside(hexa[..], old(hexa[..]), i)
  {
    hide Filling, SameOutside, HoldsGroup, HexText, HexChar, Number;
    ghost var was := hexa[..];
    ClearEntry(hexa, i);
    ghost var text: string := [];
    var p := 5 * i;
    var skip := true;
    if hi / 16 != 0 {
      skip := false;
      ghost var before := hexa[..];
      p := PutDigit(hexa, p, hi / 16, i, text);
      OutsideTransitive(hexa[..], before, was, i);
      text := text + [HexChar(hi / 16)];
    }
    if !skip || hi % 16 != 0 {
      skip := false;
      ghost var before := hexa[..];
      p := PutDigit(hexa, p, hi % 16, i, text);
      OutsideTransitive(hexa[..], before, was, i);
      text := text + [HexChar(hi % 16)];
    }
    if !skip || lo / 16 != 0 {
      ghost var before := hexa[..];
      p := PutDigit(hexa, p, lo / 16, i, text);
      OutsideTransitive(hexa[..], before, was, i);
      text := text + [HexChar(lo / 16)];
    }
    ghost var before := hexa[..];
    p := PutDigit(hexa, p, lo % 16, i, text);
    OutsideTransitive(hexa[..], before, was, i);
    HexDigitsOf(hi, lo);
    assert text + [HexChar(lo % 16)] == HexText(Number(hi, lo));
    Filled(hexa[..], i, p, Number(hi, lo));
  }

  lemma HexTextStep(a: nat, d: nat)
    requires d < 16
    ensures HexText(a * 16 + d) == (if a == 0 then [] else HexText(a)) + [HexChar(d)]
  {
    hide HexChar;
    assert (a * 16 + d) / 16 == a && (a * 16 + d) % 16 == d;
  }

  lemma HexDigitsOf(hi: Octet, lo: Octet)
    ensures HexText(Number(hi, lo)) ==
            if hi / 16 != 0 then [HexChar(hi / 16), HexChar(hi % 16), HexChar(lo / 16), HexChar(lo % 16)]
            else if hi % 16 != 0 then [HexChar(hi % 16), HexChar(lo / 16), HexChar(lo % 16)]
            else if lo / 16 != 0 then [HexChar(lo / 16), HexChar(lo % 16)]
            else [HexChar(lo % 16)]
  {
    hide HexText, HexChar;
    var a, b, c, d: nat := hi / 16, hi % 16, lo / 16, lo % 16;
    assert Number(hi, lo) == ((a * 16 + b) * 16 + c) * 16 + d;
    HexTextStep(0, a);
    HexTextStep(a, b);
    HexTextStep(a * 16 + b, c);
    HexTextStep((a * 16 + b) * 16 + c, d);
  }

  // The hexadecimal texts of the first count groups of src are in the table.
  ghost predicate HoldsGroups(hexa: seq<char>, src: seq<Octet>, count: nat)
    requires |src| == 16
  {
    |hexa| == 40 && count <= 8 && forall i | 0 <= i < count :: HoldsGroup(hexa, i, HexTexts(GroupsOf(src))[i])
  }

  lemma GroupAdded(before: seq<char>, after: seq<char>, src: seq<Octet>, i: nat)
    requires |src| == 16 && i < 8 && HoldsGroups(before, src, i) && |after| == 40
    requires HoldsGroup(after, i, HexText(Number(src[2 * i], src[2 * i + 1])))
    requires SameOutside(after, before, i)
    ensures HoldsGroups(after, src, i + 1)
  {
    hide HexText;
    forall k | 0 <= k < i ensures HoldsGroup(after, k, HexTexts(GroupsOf(src))[k]) {
      var text := HexTexts(GroupsOf(src))[k];
      assert HoldsGroup(before, k, text);
      assert after[5 * k..5 * k + |text|] == before[5 * k..5 * k + |text|];
    }
  }

  // The loop that fills the table.
  method FillTable(src: seq<Octet>) returns (hexa: array<char>)
    requires |src| == 16
    ensures fresh(hexa) && HoldsGroups(hexa[..], src, 8)
  {
    hide HoldsGroup;
    hexa := new char[40];
    for i := 0 to 8
      invariant HoldsGroups(hexa[..], src, i)
    {
      ghost var before := hexa[..];
      WriteGroup(hexa, i, src[2 * i], src[2 * i + 1]);
      GroupAdded(before, hexa[..], src, i);
    }
  }

  // Copies a group from the table up to its null character.
  method CopyGroup(hexa: array<char>, i: nat, ghost text: string, out: array<char>, at: nat) returns (next: nat)
    requires hexa != out && HoldsGroup(hexa[..], i, text) && at + 4 <= out.Length
    modifies out
    ensures next == at + |text| <= at + 4 && out[..next] == old(out[..at]) + text
    ensures forall k | next <= k < out.Length :: out[k] == old(out[k])
  {
    next := at;
    var p := 5 * i;
    assert hexa[5 * i..5 * i + |text|] == text;
    while hexa[p] != '\0'
      invariant 5 * i <= p <= 5 * i + |text| && next == at + (p - 5 * i)
      invariant out[..next] == old(out[..at]) + text[..p - 5 * i]
      invariant forall k | next <= k < out.Length :: out[k] == old(out[k])
      decreases 5 * i + |text| - p
    {
      assert text[p - 5 * i] == hexa[p];
      next := Put(out, next, hexa[p]);
      p := p + 1;
    }
    assert text[..|text|] == text;
  }

  // ---------- finding the longest run of zero groups ----------

  // The scan of v3 and v4: downwards, taking a run only if it is strictly longer.
  method LongestRunDownwards(src: seq<Octet>) returns (longestIndex: int, longestCount: int)
    requires |src| == 16
    ensures IsRightmostLongest(GroupsOf(src), longestIndex, longestCount)
  {
    ghost var g := GroupsOf(src);
    var j := 0;
    longestIndex, longestCount := -1, 0;
    var i := 7;
    while i >= 0
      invariant -1 <= i <= 7 && 0 <= j && i + 1 + j <= 8
      invariant j > 0 ==> IsZeroRun(g, i + 1, j)
      invariant i + 1 + j < 8 ==> g[i + 1 + j] != 0
      invariant (longestIndex == -1 && longestCount == 0) || IsZeroRun(g, longestIndex, longestCount)
      invariant longestCount > 0 ==> longestIndex > i
      invariant forall s, k | IsZeroRun(g, s, k) && s > i ::
                  k < longestCount || (k == longestCount && s <= longestIndex)
    {
      GroupIsZero(src, i);
      if src[i + i] == 0 && src[i + i + 1] == 0 {
        j := j + 1;
        RunsFrom(g, i, j);
        if j > longestCount {
          longestIndex := i;
          longestCount := j;
        }
      } else {
        j := 0;
      }
      i := i - 1;
    }
  }

  // The runs that start at i are no longer than the one that ends before a non-zero group.
  lemma RunsFrom(g: Groups, i: int, j: int)
    requires 0 <= i && 0 < j && i + j <= 8 && (i + j < 8 ==> g[i + j] != 0)
    ensures forall k | IsZeroRun(g, i, k) :: k <= j
  {
  }

  // The runs that end before e are no longer than the one that starts after a non-zero group.
  lemma RunsTo(g: Groups, e: int, j: int)
    requires 0 <= j <= e <= 8 && (e - j > 0 ==> g[e - j - 1] != 0)
    ensures forall s, k | IsZeroRun(g, s, k) && s + k == e :: k <= j
  {
  }

  // The upward scan before group i: the run of j zero groups that ends there, and the longest
  // run among those that end by then.
  ghost predicate ScannedUpTo(g: Groups, i: nat, j: nat, at: int, n: int) {
    && j <= i <= 8 && (j > 0 ==> IsZeroRun(g, i - j, j)) && (i - j > 0 ==> g[i - j - 1] != 0)
    && ((at == -1 && n == 0) || IsZeroRun(g, at, n))
    && forall s, k | IsZeroRun(g, s, k) && s + k <= i :: k < n || (k == n && s <= at)
  }

  lemma ScanZeroGroup(g: Groups, i: nat, j: nat, at: int, n: int)
    requires ScannedUpTo(g, i, j, at, n) && i < 8 && g[i] == 0
    ensures j + 1 >= n ==> ScannedUpTo(g, i + 1, j + 1, i - (j + 1) + 1, j + 1)
    ensures j + 1 < n ==> ScannedUpTo(g, i + 1, j + 1, at, n)
  {
    RunsTo(g, i + 1, j + 1);
  }

  lemma ScanOtherGroup(g: Groups, i: nat, j: nat, at: int, n: int)
    requires ScannedUpTo(g, i, j, at, n) && i < 8 && g[i] != 0
    ensures ScannedUpTo(g, i + 1, 0, at, n)
  {
  }

  lemma ScanEnds(g: Groups, j: nat, at: int, n: int)
    requires ScannedUpTo(g, 8, j, at, n)
    ensures IsRightmostLongest(g, at, n)
  {
  }

  lemma ScanBegins(g: Groups)
    ensures ScannedUpTo(g, 0, 0, -1, 0)
  {
  }

  // The loop of v5 and webpp::v1: fills the table and scans upwards, taking a run that is at
  // least as long.
  method FillTableAndScan(src: seq<Octet>) returns (hexa: array<char>, longestIndex: int, longestCount: int)
    requires |src| == 16
    ensures fresh(hexa) && HoldsGroups(hexa[..], src, 8)
    ensures IsRightmostLongest(GroupsOf(src), longestIndex, longestCount)
  {
    hide HoldsGroup, HoldsGroups, ScannedUpTo, IsRightmostLongest, GroupsOf, HexTexts, SameOutside, HexText, Number;
    ghost var g := GroupsOf(src);
    hexa := new char[40];
    TableIsEmpty(hexa[..], src);
    ScanBegins(g);
    var j: nat := 0;
    longestIndex, longestCount := -1, 0;
    for i := 0 to 8
      invariant HoldsGroups(hexa[..], src, i)
      invariant ScannedUpTo(g, i, j, longestIndex, longestCount)
    {
      ghost var before := hexa[..];
      WriteGroup(hexa, i, src[2 * i], src[2 * i + 1]);
      GroupAdded(before, hexa[..], src, i);
      GroupIsZero(src, i);
      if src[i + i] == 0 && src[i + i + 1] == 0 {
        ScanZeroGroup(g, i, j, longestIndex, longestCount);
        j := j + 1;
        if j >= longestCount {
          longestIndex := i - j + 1;
          longestCount := j;
        }
      } else {
        ScanOtherGroup(g, i, j, longestIndex, longestCount);
        j := 0;
      }
    }
    ScanEnds(g, j, longestIndex, longestCount);
  }

  lemma TableIsEmpty(hexa: seq<char>, src: seq<Octet>)
    requires |hexa| == 40 && |src| == 16
    ensures HoldsGroups(hexa, src, 0)
  {
  }

  // ---------- writing the text ----------

  // Writes group i, and a colon unless it is the last.
  method PutGroup(src: seq<Octet>, hexa: array<char>, i: nat, out: array<char>, at: nat) returns (next: nat)
    requires |src| == 16 && i < 8 && hexa != out && HoldsGroups(hexa[..], src, 8) && at + 5 <= out.Length
    modifies out
    ensures at <= next <= at + 5
    ensures out[..next] == old(out[..at]) + HexTexts(GroupsOf(src))[i] + (if i != 7 then ":" else "")
    ensures forall k | next <= k < out.Length :: out[k] == old(out[k])
  {
    hide HoldsGroup;
    next := CopyGroup(hexa, i, HexTexts(GroupsOf(src))[i], out, at);
    if i != 7 {
      next := Put(out, next, ':');
    }
  }

  method PutMappedPrefix(out: array<char>, at: nat) returns (next: nat)
    requires at + 5 <= out.Length
    modifies out
    ensures next == at + 5 && out[..next] == old(out[..at]) + "ffff:"
    ensures forall k | next <= k < out.Length :: out[k] == old(out[k])
  {
    next := Put(out, at, 'f');
    next := Put(out, next, 'f');
    next := Put(out, next, 'f');
    next := Put(out, next, 'f');
    next := Put(out, next, ':');
  }

  // The two dotted-quad endings, after the first colon has been written.
  method PutQuadForm(src: seq<Octet>, mapped: bool, terminated: bool, out: array<char>, at: nat) returns (next: nat)
    requires |src| == 16 && at + 22 <= out.Length
    modifies out
    ensures at <= next <= at + 21
    ensures out[..next] == old(out[..at]) + ((if mapped then ":ffff:" else ":") + Dotted(src[12..]))
    ensures if terminated then out[next] == '\0' else out[next] == old(out[next])
    ensures forall k | next < k < out.Length :: out[k] == old(out[k])
  {
    hide Dotted;
    next := Put(out, at, ':');
    if mapped {
      next := PutMappedPrefix(out, next);
      assert old(out[..at]) + ":" + "ffff:" == old(out[..at]) + ":ffff:";
    }
    ghost var prefix: string := if mapped then ":ffff:" else ":";
    ConcatAssociates(old(out[..at]), prefix, Dotted(src[12..]));
    if terminated {
      next := InetNtop4Terminated(src[12..], out, next);
    } else {
      next := InetNtop4(src[12..], out, next);
    }
  }

  lemma QuadFormText(src: seq<Octet>, mapped: bool)
    requires |src| == 16
    ensures Text(Form([], true, if mapped then ["ffff"] else [], src[12..])) ==
            ":" + ((if mapped then ":ffff:" else ":") + Dotted(src[12..]))
  {
    hide Dotted, Joined;
    var d := Dotted(src[12..]);
    JoinedNothing();
    JoinedQuad("ffff", src[12..]);
    assert "" + "::" + d == ":" + (":" + d);
    assert "" + "::" + ("ffff" + ":" + d) == ":" + (":ffff:" + d);
  }

  lemma TailAfterGroup(done: string, t: seq<string>, at: int, n: int, i: nat)
    requires |t| == 8 && (n == 0 || (0 <= at && 0 < n && at + n <= 8)) && i < 8
    requires n == 0 || i < at || at + n <= i
    ensures done + t[i] + (if i != 7 then ":" else "") + TailText(t, at, n, i + 1) == done + TailText(t, at, n, i)
  {
    hide TailText;
    TailGroup(t, at, n, i);
    assert done + (t[i] + (if i != 7 then ":" else "") + TailText(t, at, n, i + 1)) ==
        done + t[i] + (if i != 7 then ":" else "") + TailText(t, at, n, i + 1);
  }

  // Writes the groups from one place to another, none of them in the run that is left out.
  method PutGroups(
    src: seq<Octet>, hexa: array<char>, from: nat, to: nat, ghost at: int, ghost n: int, out: array<char>, start: nat)
    returns (next: nat)
    requires |src| == 16 && from <= to <= 8 && hexa != out && HoldsGroups(hexa[..], src, 8)
    requires n == 0 || (0 <= at && 0 < n && at + n <= 8 && (to <= at || at + n <= from))
    requires start + 5 * (to - from) <= out.Length
    modifies out
    ensures start <= next <= start + 5 * (to - from)
    ensures var t := HexTexts(GroupsOf(src));
            out[..next] + TailText(t, at, n, to) == old(out[..start]) + TailText(t, at, n, from)
    ensures forall k | next <= k < out.Length :: out[k] == old(out[k])
  {
    hide HoldsGroups, HexTexts, TailText;
    ghost var t := HexTexts(GroupsOf(src));
    var i := from;
    next := start;
    while i != to
      invariant from <= i <= to && start <= next <= start + 5 * (i - from)
      invariant HoldsGroups(hexa[..], src, 8)
      invariant out[..next] + TailText(t, at, n, i) == old(out[..start]) + TailText(t, at, n, from)
      invariant forall k | next <= k < out.Length :: out[k] == old(out[k])
    {
      ghost var done := out[..next];
      next := PutGroup(src, hexa, i, out, next);
      TailAfterGroup(done, t, at, n, i);
      i := i + 1;
    }
  }

  ghost predicate IsCompat(compat: bool, at: int, n: int) {
    compat && at == 0 && n == 6
  }

  ghost predicate IsMapped(src: seq<Octet>, at: int, n: int)
    requires |src| == 16
  {
    at == 0 && n == 5 && src[10] == 0xff && src[11] == 0xff
  }

  // What is printed, when the run has been found.
  lemma PrintedText(src: seq<Octet>, at: int, n: int, compat: bool)
    requires |src| == 16 && IsRightmostLongest(GroupsOf(src), at, n)
    ensures n == 0 || (0 <= at && 0 < n && at + n <= 8)
    ensures at == -1 <==> n == 0
    ensures EndsInQuad(src, compat) <==> IsCompat(compat, at, n) || IsMapped(src, at, n)
    ensures IsCompat(compat, at, n) ==> Ntop6(src, compat) == ":" + (":" + Dotted(src[12..]))
    ensures IsMapped(src, at, n) ==> Ntop6(src, compat) == ":" + (":ffff:" + Dotted(src[12..]))
    ensures !EndsInQuad(src, compat) ==>
              Ntop6(src, compat) == (if at == 0 then ":" else "") + TailText(HexTexts(GroupsOf(src)), at, n, 0)
  {
    hide Dotted, Text, CompressedForm, HexTexts, TailText, Ntop6, EndsInQuad;
    Ntop6Is(src, at, n, compat);
    QuadFormText(src, true);
    QuadFormText(src, false);
    TailStart(GroupsOf(src), at, n);
  }

  // The first colon of a text that starts with the run, and with it the rest of a text that ends
  // in a dotted quad.
  method PutFirstColon(src: seq<Octet>, longestCount: int, compat: bool, terminated: bool, out: array<char>, at: nat)
    returns (next: nat, done: bool)
    requires |src| == 16 && at + 46 <= out.Length && IsRightmostLongest(GroupsOf(src), 0, longestCount)
    modifies out
    ensures at < next <= at + 39 && done == EndsInQuad(src, compat)
    ensures done ==> out[..next] == old(out[..at]) + Ntop6(src, compat)
    ensures if done && terminated then out[next] == '\0' else out[next] == old(out[next])
    ensures forall k | next < k < out.Length :: out[k] == old(out[k])
    ensures !done ==> next == at + 1 && out[..next] == old(out[..at]) + ":"
  {
    hide Ntop6, Dotted, EndsInQuad, IsRightmostLongest, TailText;
    ghost var pre := out[..at];
    PrintedText(src, 0, longestCount, compat);
    next := Put(out, at, ':');
    done := true;
    if compat && longestCount == 6 {
      next := PutQuadForm(src, false, terminated, out, next);
      ConcatAssociates(pre, ":", ":" + Dotted(src[12..]));
    } else if longestCount == 5 && src[10] == 0xff && src[11] == 0xff {
      next := PutQuadForm(src, true, terminated, out, next);
      ConcatAssociates(pre, ":", ":ffff:" + Dotted(src[12..]));
    } else {
      done := false;
    }
  }

  // The colon that stands for the run.
  method PutGap(ghost t: seq<string>, ghost at: int, ghost n: int, out: array<char>, start: nat) returns (next: nat)
    requires |t| == 8 && 0 <= at && 0 < n && at + n <= 8 && start < out.Length
    modifies out
    ensures next == start + 1
    ensures out[..next] + TailText(t, at, n, at + n) == old(out[..start]) + TailText(t, at, n, at)
    ensures forall k | next <= k < out.Length :: out[k] == old(out[k])
  {
    hide TailText;
    ghost var done := out[..start];
    TailGap(t, at, n);
    next := Put(out, start, ':');
    ConcatAssociates(done, ":", TailText(t, at, n, at + n));
  }

  lemma TailIsWritten(done: string, t: seq<string>, at: int, n: int)
    requires |t| == 8 && (n == 0 || (0 <= at && 0 < n && at + n <= 8))
    ensures done + TailText(t, at, n, 8) == done
  {
    hide TailText;
    TailEnd(t, at, n);
  }

  // The loops of v5 and webpp::v1: the groups before the run, a colon, the groups after it.
  method PutAroundGap(
    src: seq<Octet>, hexa: array<char>, longestIndex: int, longestCount: int, out: array<char>, start: nat)
    returns (next: nat)
    requires |src| == 16 && hexa != out && HoldsGroups(hexa[..], src, 8) && start + 41 <= out.Length
    requires longestIndex == -1 <==> longestCount == 0
    requires longestCount == 0 || (0 <= longestIndex && 0 < longestCount && longestIndex + longestCount <= 8)
    modifies out
    ensures start <= next <= start + 40
    ensures out[..next] == old(out[..start]) + TailText(HexTexts(GroupsOf(src)), longestIndex, longestCount, 0)
    ensures forall k | next <= k < out.Length :: out[k] == old(out[k])
  {
    hide HoldsGroups, HexTexts, TailText;
    ghost var t := HexTexts(GroupsOf(src));
    if longestIndex == -1 {
      next := PutGroups(src, hexa, 0, 7, longestIndex, longestCount, out, start);
      next := PutGroups(src, hexa, 7, 8, longestIndex, longestCount, out, next);
    } else {
      next := PutGroups(src, hexa, 0, longestIndex, longestIndex, longestCount, out, start);
      next := PutGap(t, longestIndex, longestCount, out, next);
      next := PutGroups(src, hexa, longestIndex + longestCount, 8, longestIndex, longestCount, out, next);
    }
    TailIsWritten(out[..next], t, longestIndex, longestCount);
  }

  // v5 and, without compat and with a terminator after a dotted quad too, webpp::v1.
  method PrintUpwards(src: seq<Octet>, compat: bool, terminated: bool, out: array<char>, at: nat) returns (next: nat)
    requires |src| == 16 && at + 46 <= out.Length
    modifies out
    ensures at < next <= at + 39
    ensures out[..next] == old(out[..at]) + Ntop6(src, compat)
    ensures if terminated || !EndsInQuad(src, compat) then out[next] == '\0' else out[next] == old(out[next])
    ensures forall k | next < k < out.Length :: out[k] == old(out[k])
  {
    hide HoldsGroups, HexTexts, TailText, Ntop6, Dotted, EndsInQuad, IsRightmostLongest;
    out[at] := '\0';
    ghost var pre, t := out[..at], HexTexts(GroupsOf(src));
    var hexa, longestIndex, longestCount := FillTableAndScan(src);
    PrintedText(src, longestIndex, longestCount, compat);
    Ntop6Length(src, compat);
    next := at;
    if longestIndex == 0 {
      var done;
      next, done := PutFirstColon(src, longestCount, compat, terminated, out, next);
      if done {
        return;
      }
    }
    ConcatAssociates(pre, if longestIndex == 0 then ":" else "", TailText(t, longestIndex, longestCount, 0));
    next := PutAroundGap(src, hexa, longestIndex, longestCount, out, next);
    out[next] := '\0';
  }

  // v5::inet_ntop6, which leaves a text that ends in a dotted quad without a terminator.
  method InetNtop6V5(src: seq<Octet>, out: array<char>, at: nat) returns (next: nat)
    requires |src| == 16 && at + 46 <= out.Length
    modifies out
    ensures at < next <= at + 39
    ensures out[..next] == old(out[..at]) + Ntop6(src, true)
    ensures if EndsInQuad(src, true) then out[next] == old(out[next]) else out[next] == '\0'
    ensures forall k | next < k < out.Length :: out[k] == old(out[k])
  {
    next := PrintUpwards(src, true, false, out, at);
  }

  // webpp::v1::inet_ntop6, which prints IPv4-compatible addresses in hexadecimal.
  method InetNtop6Webpp(src: seq<Octet>, out: array<char>, at: nat) returns (next: nat)
    requires |src| == 16 && at + 46 <= out.Length
    modifies out
    ensures at < next <= at + 39
    ensures out[..next] == old(out[..at]) + Ntop6(src, false) && out[next] == '\0'
    ensures forall k | next < k < out.Length :: out[k] == old(out[k])
  {
    next := PrintUpwards(src, false, true, out, at);
  }

  // One group of the loop of v3 and v4, written in the tail of the text.
  method PutTailGroup(
    src: seq<Octet>, hexa: array<char>, i: nat, ghost at: int, ghost n: int, out: array<char>, start: nat)
    returns (next: nat)
    requires |src| == 16 && i < 8 && hexa != out && HoldsGroups(hexa[..], src, 8) && start + 5 <= out.Length
    requires n == 0 || (0 <= at && 0 < n && at + n <= 8 && (i < at || at + n <= i))
    modifies out
    ensures start <= next <= start + 5
    ensures var t := HexTexts(GroupsOf(src));
            out[..next] + TailText(t, at, n, i + 1) == old(out[..start]) + TailText(t, at, n, i)
    ensures forall k | next <= k < out.Length :: out[k] == old(out[k])
  {
    next := PutGroups(src, hexa, i, i + 1, at, n, out, start);
  }

  // The printing loop of v4: one pass over the groups that steps over the run.
  method PutAllGroups(
    src: seq<Octet>, hexa: array<char>, longestIndex: int, longestCount: int, out: array<char>, start: nat)
    returns (next: nat)
    requires |src| == 16 && hexa != out && HoldsGroups(hexa[..], src, 8) && start + 41 <= out.Length
    requires longestIndex == -1 <==> longestCount == 0
    requires longestCount == 0 || (0 <= longestIndex && 0 < longestCount && longestIndex + longestCount <= 8)
    modifies out
    ensures start <= next <= start + 40
    ensures out[..next] == old(out[..start]) + TailText(HexTexts(GroupsOf(src)), longestIndex, longestCount, 0)
    ensures forall k | next <= k < out.Length :: out[k] == old(out[k])
  {
    hide HoldsGroups, HexTexts, TailText;
    ghost var t, at, n := HexTexts(GroupsOf(src)), longestIndex, longestCount;
    var i := 0;
    next := start;
    while i != 8
      invariant 0 <= i <= 8 && start <= next <= start + 5 * i
      invariant n == 0 || i <= at || at + n <= i
      invariant HoldsGroups(hexa[..], src, 8)
      invariant out[..next] + TailText(t, at, n, i) == old(out[..start]) + TailText(t, at, n, 0)
      invariant forall k | next <= k < out.Length :: out[k] == old(out[k])
      decreases 8 - i
    {
      if i == longestIndex {
        next := PutGap(t, at, n, out, next);
        i := i + (longestCount - 1);
      } else {
        next := PutTailGroup(src, hexa, i, at, n, out, next);
      }
      i := i + 1;
    }
    TailIsWritten(out[..next], t, at, n);
  }

  // v4::inet_ntop6
  method InetNtop6V4(src: seq<Octet>, out: array<char>, at: nat) returns (next: nat)
    requires |src| == 16 && at + 46 <= out.Length
    modifies out
    ensures at < next <= at + 39
    ensures out[..next] == old(out[..at]) + Ntop6(src, true)
    ensures if EndsInQuad(src, true) then out[next] == old(out[next]) else out[next] == '\0'
    ensures forall k | next < k < out.Length :: out[k] == old(out[k])
  {
    hide HoldsGroups, HexTexts, TailText, Ntop6, Dotted, EndsInQuad, IsRightmostLongest;
    out[at] := '\0';
    ghost var pre, t := out[..at], HexTexts(GroupsOf(src));
    var hexa := FillTable(src);
    var longestIndex, longestCount := LongestRunDownwards(src);
    PrintedText(src, longestIndex, longestCount, true);
    Ntop6Length(src, true);
    next := at;
    if longestIndex == 0 {
      var done;
      next, done := PutFirstColon(src, longestCount, true, false, out, next);
      if done {
        return;
      }
    }
    ConcatAssociates(pre, if longestIndex == 0 then ":" else "", TailText(t, longestIndex, longestCount, 0));
    next := PutAllGroups(src, hexa, longestIndex, longestCount, out, next);
    out[next] := '\0';
  }

  // v3::inet_ntop6, which makes the same checks on meeting the run in its loop. They can only
  // succeed in the first round, when nothing but the first colon has been written.
  method InetNtop6V3(src: seq<Octet>, out: array<char>, at: nat) returns (next: nat)
    requires |src| == 16 && at + 46 <= out.Length
    modifies out
    ensures at < next <= at + 39
    ensures out[..next] == old(out[..at]) + Ntop6(src, true)
    ensures if EndsInQuad(src, true) then out[next] == old(out[next]) else out[next] == '\0'
    ensures forall k | next < k < out.Length :: out[k] == old(out[k])
  {
    hide HoldsGroups, HexTexts, TailText, Ntop6, Dotted, EndsInQuad, IsRightmostLongest;
    out[at] := '\0';
    ghost var pre, t := out[..at], HexTexts(GroupsOf(src));
    var hexa := FillTable(src);
    var longestIndex, longestCount := LongestRunDownwards(src);
    PrintedText(src, longestIndex, longestCount, true);
    Ntop6Length(src, true);
    ghost var first := if longestIndex == 0 then ":" else "";
    ghost var whole := pre + first + TailText(t, longestIndex, longestCount, 0);
    ConcatAssociates(pre, first, TailText(t, longestIndex, longestCount, 0));
    var i := 0;
    next := at;
    while i != 8
      invariant 0 <= i <= 8 && at <= next <= at + 1 + 5 * i && (i == 0 ==> next == at && out[..at] == pre)
      invariant longestCount == 0 || i <= longestIndex || longestIndex + longestCount <= i
      invariant HoldsGroups(hexa[..], src, 8)
      invariant i > 0 ==> !EndsInQuad(src, true) || longestIndex != 0
      invariant i > 0 ==> out[..next] + TailText(t, longestIndex, longestCount, i) == whole
      invariant forall k | next <= k < out.Length && k > at :: out[k] == old(out[k])
      decreases 8 - i
    {
      if i == longestIndex {
        if i == 0 {
          var done;
          next, done := PutFirstColon(src, longestCount, true, false, out, next);
          if done {
            return;
          }
        }
        next := PutGap(t, longestIndex, longestCount, out, next);
        i := i + (longestCount - 1);
      } else {
        next := PutTailGroup(src, hexa, i, longestIndex, longestCount, out, next);
      }
      i := i + 1;
    }
    TailIsWritten(out[..next], t, longestIndex, longestCount);
    out[next] := '\0';
  }
}
