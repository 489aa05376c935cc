// Canonical composition as a function over whole segments, and the two facts
// that make it a normal form: it keeps canonical meaning and it is maximal.
module CanonicalComposition {
  import opened Sequences
  import opened UnicodeData
  import opened CanonicalOrder
  import opened CanonicalDecomposition

  // A starter with what it has composed with so far, the marks passed over, and the text still to be read.
  datatype Segment = Segment(starter: CodePoint, skipped: seq<CodePoint>, rest: seq<CodePoint>)

  // The class a following mark must exceed to be unblocked; -1 when no mark has been passed over.
  function PreviousClass(u: Ucd, skipped: seq<CodePoint>): int {
    if skipped == [] then -1 else u.ccc(skipped[|skipped| - 1])
  }

  // The rest of one segment: each unblocked character is tried once, against the starter as it is by then.
  function Absorb(u: Ucd, g: Segment): (r: Segment)
    ensures |r.rest| <= |g.rest| && |r.skipped| + |r.rest| <= |g.skipped| + |g.rest|
    decreases |g.rest|
  {
    if g.rest == [] then g
    else
      var next := g.rest[0];
      if PreviousClass(u, g.skipped) < u.ccc(next) && u.pair(g.starter, next).Some? then
        Absorb(u, Segment(u.pair(g.starter, next).value, g.skipped, g.rest[1..]))
      else if u.ccc(next) == 0 then g
      else Absorb(u, Segment(g.starter, g.skipped + [next], g.rest[1..]))
  }

  function SyllableLV(l: CodePoint, v: CodePoint): CodePoint
    requires IsL(l) && IsV(v)
  {
    HANGUL_SBASE + ((l - HANGUL_LBASE) * HANGUL_VCOUNT + (v - HANGUL_VBASE)) * HANGUL_TCOUNT
  }

  // Absorb reads from the front of the rest of the text.
  lemma {:induction false} AbsorbLeavesSuffix(u: Ucd, g: Segment)
    ensures Absorb(u, g).rest == g.rest[|g.rest| - |Absorb(u, g).rest|..]
    decreases |g.rest|
  {
    if g.rest == [] {
    } else {
      var next, tail := g.rest[0], g.rest[1..];
      if PreviousClass(u, g.skipped) < u.ccc(next) && u.pair(g.starter, next).Some? {
        AbsorbLeavesSuffix(u, Segment(u.pair(g.starter, next).value, g.skipped, tail));
      } else if u.ccc(next) != 0 {
        AbsorbLeavesSuffix(u, Segment(g.starter, g.skipped + [next], tail));
      }
    }
  }

  // The start of a composed text, and how many of the characters read it stands for.
  datatype Piece = Piece(head: seq<CodePoint>, used: nat)

  function FirstPiece(u: Ucd, s: seq<CodePoint>): (p: Piece)
    requires s != []
    ensures 0 < |p.head| <= p.used <= |s|
  {
    if IsL(s[0]) then
      if |s| > 1 && IsV(s[1]) then
        if |s| > 2 && IsT(s[2]) then Piece([SyllableLV(s[0], s[1]) + (s[2] - HANGUL_TBASE)], 3)
        else Piece([SyllableLV(s[0], s[1])], 2)
      else Piece([s[0]], 1)
    else if IsSyllable(s[0]) then
      if (s[0] - HANGUL_SBASE) % HANGUL_TCOUNT != 0 && |s| > 1 && IsT(s[1]) then
        Piece([s[0] + (s[1] - HANGUL_TBASE)], 2)
      else Piece([s[0]], 1)
    else if s[0] < UNICODE_END then
      var g := Absorb(u, Segment(s[0], [], s[1..]));
      Piece([g.starter] + g.skipped, |s| - |g.rest|)
    else Piece([s[0]], 1)
  }

  // What compose leaves in its argument.
  function Compose(u: Ucd, s: seq<CodePoint>): (r: seq<CodePoint>)
    decreases |s|
  {
    if s == [] then []
    else
      var p := FirstPiece(u, s);
      p.head + Compose(u, s[p.used..])
  }

  // ---------- composition keeps canonical meaning ----------

  // Text in order in which every mark stands for marks of its own class. Starters may be precomposed.
  ghost predicate IsOrderly(u: Ucd, s: seq<CodePoint>) {
    && InOrder(u, s)
    && (forall i | 0 <= i < |s| && u.ccc(s[i]) > 0 :: KeepsClass(u, s[i]))
  }

  // The guard of the branch for syllables: a syllable with a trailing consonant before another one.
  predicate IsMerge(s: seq<CodePoint>, i: nat) {
    i + 1 < |s| && IsLVT(s[i]) && IsT(s[i + 1])
  }

  function Merged(a: CodePoint, b: CodePoint): CodePoint
    requires IsLVT(a) && IsT(b)
  {
    a + (b - HANGUL_TBASE)
  }

  // A syllable without a trailing consonant before one: the branch for syllables passes it over.
  predicate IsGap(s: seq<CodePoint>, i: nat) {
    i + 1 < |s| && IsLV(s[i]) && IsT(s[i + 1])
  }

  // The same, where a merge yields the syllable.
  predicate IsMergedGap(s: seq<CodePoint>, i: nat) {
    IsMerge(s, i) && i + 2 < |s| && IsT(s[i + 2]) && IsLV(Merged(s[i], s[i + 1]))
  }

  ghost predicate HasMerge(s: seq<CodePoint>) {
    exists i: nat :: IsMerge(s, i)
  }

  ghost predicate HasGap(s: seq<CodePoint>) {
    exists i: nat :: IsGap(s, i) || IsMergedGap(s, i)
  }

  // The marks passed over ascend in class, and none of what follows is below the last of them.
  ghost predicate SegmentOK(u: Ucd, g: Segment) {
    && (forall i | 0 <= i < |g.skipped| :: KeepsClass(u, g.skipped[i])) && IsOrderly(u, g.rest)
    && (forall i | 0 <= i < |g.skipped| :: 0 < u.ccc(g.skipped[i]) <= PreviousClass(u, g.skipped))
    && (g.rest != [] && u.ccc(g.rest[0]) > 0 ==> PreviousClass(u, g.skipped) <= u.ccc(g.rest[0]))
  }

  lemma TailIsOrderly(u: Ucd, s: seq<CodePoint>, n: nat)
    requires IsOrderly(u, s) && n <= |s|
    ensures IsOrderly(u, s[n..])
  {
  }

  lemma PlaceInTail(s: seq<CodePoint>, n: nat, i: nat)
    requires n <= |s|
    ensures IsMerge(s[n..], i) <==> IsMerge(s, n + i)
    ensures IsGap(s[n..], i) <==> IsGap(s, n + i)
    ensures IsMergedGap(s[n..], i) <==> IsMergedGap(s, n + i)
  {
    hide IsLVT, IsLV, IsT;
  }

  lemma TailHasNoMore(s: seq<CodePoint>, n: nat)
    requires n <= |s|
    ensures HasMerge(s[n..]) ==> HasMerge(s)
    ensures HasGap(s[n..]) ==> HasGap(s)
  {
    hide IsMerge, IsGap, IsMergedGap;
    if HasMerge(s[n..]) {
      var i: nat :| IsMerge(s[n..], i);
      PlaceInTail(s, n, i);
    }
    if HasGap(s[n..]) {
      var i: nat :| IsGap(s[n..], i) || IsMergedGap(s[n..], i);
      PlaceInTail(s, n, i);
    }
  }

  lemma SyllableDecomposes(u: Ucd, c: CodePoint)
    requires HangulOK(u) && u.decomposition(c) == [c]
    ensures !IsSyllable(c)
  {
  }

  // Decomposed text is orderly and holds no syllable.
  lemma NfdIsOrderly(u: Ucd, s: seq<CodePoint>)
    requires IsNfd(u, s)
    ensures IsOrderly(u, s)
    ensures HangulOK(u) ==> !HasMerge(s) && !HasGap(s)
  {
    if HangulOK(u) {
      forall i | 0 <= i < |s| ensures !IsSyllable(s[i]) {
        SyllableDecomposes(u, s[i]);
      }
    }
  }

  ghost predicate AreMarksBelow(u: Ucd, s: seq<CodePoint>, k: nat) {
    forall i | 0 <= i < |s| :: 0 < u.ccc(s[i]) < k
  }

  // A character may be brought forward past marks of lower non-zero class.
  lemma {:induction false} BringForward(
    u: Ucd, pre: seq<CodePoint>, marks: seq<CodePoint>, c: CodePoint, v: seq<CodePoint>)
    requires AreMarksBelow(u, marks, u.ccc(c))
    ensures Sort(u, pre + marks + [c] + v) == Sort(u, pre + [c] + marks + v)
    decreases |marks|
  {
    if marks == [] {
      assert pre + marks + [c] + v == pre + [c] + marks + v;
    } else {
      var front, last := marks[..|marks| - 1], marks[|marks| - 1];
      assert pre + marks + [c] + v == (pre + front) + [last, c] + v;
      SortIgnoresSwap(u, pre + front, last, c, v);
      assert (pre + front) + [c, last] + v == pre + front + [c] + ([last] + v);
      BringForward(u, pre, front, c, [last] + v);
      assert pre + [c] + front + ([last] + v) == pre + [c] + marks + v;
    }
  }

  // One step of Absorb from a segment that is OK leads to a segment that is OK.
  lemma StepKeepsSegmentOK(u: Ucd, g: Segment)
    requires SegmentOK(u, g) && g.rest != []
    ensures var next := g.rest[0];
            && (forall c: CodePoint | PreviousClass(u, g.skipped) < u.ccc(next) ::
                  SegmentOK(u, Segment(c, g.skipped, g.rest[1..])))
            && (u.ccc(next) != 0 ==> SegmentOK(u, Segment(g.starter, g.skipped + [next], g.rest[1..])))
  {
    TailIsOrderly(u, g.rest, 1);
  }

  function Meaning(u: Ucd, g: Segment): seq<CodePoint> {
    u.decomposition(g.starter) + Decompose(u, g.skipped) + Decompose(u, g.rest)
  }

  lemma {:induction false} DecomposedClasses(u: Ucd, marks: seq<CodePoint>, k: nat)
    requires AreMarksBelow(u, marks, k) && forall i | 0 <= i < |marks| :: KeepsClass(u, marks[i])
    ensures AreMarksBelow(u, Decompose(u, marks), k)
  {
    if marks == [] {
    } else {
      DecomposedClasses(u, marks[1..], k);
      assert KeepsClass(u, marks[0]);
      assert AreMarksBelow(u, u.decomposition(marks[0]), k);
    }
  }

  // A first character that stands for itself heads the decomposed text.
  lemma DecomposeHead(u: Ucd, s: seq<CodePoint>)
    requires s != [] && u.decomposition(s[0]) == [s[0]]
    ensures var d := Decompose(u, s); d != [] && d[0] == s[0] && d[1..] == Decompose(u, s[1..])
  {
  }

  // Composing the starter with an unblocked character does not change what the text means.
  lemma CombiningKeepsMeaning(u: Ucd, pre: seq<CodePoint>, g: Segment, c: CodePoint)
    requires SegmentOK(u, g) && g.rest != [] && PreviousClass(u, g.skipped) < u.ccc(g.rest[0])
    requires u.decomposition(c) == u.decomposition(g.starter) + [g.rest[0]]
    requires u.decomposition(g.rest[0]) == [g.rest[0]]
    ensures Sort(u, pre + Meaning(u, Segment(c, g.skipped, g.rest[1..]))) == Sort(u, pre + Meaning(u, g))
  {
    hide Decompose, Sort;
    var d, next, tail := u.decomposition(g.starter), g.rest[0], Decompose(u, g.rest[1..]);
    var marks := Decompose(u, g.skipped);
    DecomposeHead(u, g.rest);
    assert AreMarksBelow(u, g.skipped, u.ccc(next));
    hide AreMarksBelow;
    DecomposedClasses(u, g.skipped, u.ccc(next));
    BringForward(u, pre + d, marks, next, tail);
    Regroup(pre, d, marks, Decompose(u, g.rest));
  }

  lemma SkippingKeepsMeaning(u: Ucd, g: Segment)
    requires g.rest != []
    ensures Meaning(u, Segment(g.starter, g.skipped + [g.rest[0]], g.rest[1..])) == Meaning(u, g)
  {
    hide Decompose;
    var d, marks := u.decomposition(g.starter), Decompose(u, g.skipped);
    var next, tail := u.decomposition(g.rest[0]), Decompose(u, g.rest[1..]);
    DecomposeConcat(u, g.skipped, [g.rest[0]]);
    DecomposeOne(u, g.rest[0]);
    DecomposeSnoc(u, g.rest, 0);
    assert g.rest[0..] == g.rest;
    ConcatAssociates(d, marks, next);
    ConcatAssociates(d + marks, next, tail);
  }

  lemma {:induction false} AbsorbKeepsMeaning(u: Ucd, pre: seq<CodePoint>, g: Segment)
    requires PairsOK(u) && SegmentOK(u, g)
    ensures SegmentOK(u, Absorb(u, g))
    ensures Sort(u, pre + Meaning(u, Absorb(u, g))) == Sort(u, pre + Meaning(u, g))
    decreases |g.rest|
  {
    if g.rest == [] {
    } else {
      var next, tail := g.rest[0], g.rest[1..];
      StepKeepsSegmentOK(u, g);
      if PreviousClass(u, g.skipped) < u.ccc(next) && u.pair(g.starter, next).Some? {
        var c := u.pair(g.starter, next).value;
        assert PairOK(u, g.starter, next, c);
        CombiningKeepsMeaning(u, pre, g, c);
        AbsorbKeepsMeaning(u, pre, Segment(c, g.skipped, tail));
      } else if u.ccc(next) != 0 {
        var h := Segment(g.starter, g.skipped + [next], tail);
        SkippingKeepsMeaning(u, g);
        AbsorbKeepsMeaning(u, pre, h);
      }
    }
  }

  // If a head (one composed character and its skipped marks) decomposes to d, then prefixing it
  // to composed text means the same as prefixing d to the text that was composed.
  lemma PrefixKeepsMeaning(
    u: Ucd, pre: seq<CodePoint>, head: seq<CodePoint>, composed: seq<CodePoint>, tail: seq<CodePoint>)
    requires Sort(u, (pre + Decompose(u, head)) + Decompose(u, composed)) == Sort(u, (pre + Decompose(u, head)) + tail)
    ensures Sort(u, pre + Decompose(u, head + composed)) == Sort(u, pre + (Decompose(u, head) + tail))
  {
    DecomposeConcat(u, head, composed);
    ConcatAssociates(pre, Decompose(u, head), Decompose(u, composed));
    ConcatAssociates(pre, Decompose(u, head), tail);
  }

  // The two texts mean the same after any prefix.
  ghost predicate SameMeaning(u: Ucd, a: seq<CodePoint>, b: seq<CodePoint>) {
    forall pre: seq<CodePoint> :: Sort(u, pre + a) == Sort(u, pre + b)
  }

  // The first syllable of s takes all the jamo it can and decomposes into them.
  lemma SyllablePiece(u: Ucd, s: seq<CodePoint>)
    requires HangulOK(u) && |s| > 1 && IsL(s[0]) && IsV(s[1])
    ensures var p := FirstPiece(u, s);
            && p.used >= 2 && |p.head| == 1 && IsSyllable(p.head[0]) && u.decomposition(p.head[0]) == s[..p.used]
            && (forall i | 0 <= i < p.used :: IsJamo(s[i]))
  {
    hide HangulDecomposition;
    var tr := if |s| > 2 && IsT(s[2]) then s[2] - HANGUL_TBASE else 0;
    var p := FirstPiece(u, s);
    HangulRoundTrip(s[0], s[1], tr);
    assert s[..p.used] == [s[0], s[1]] + (if tr == 0 then [] else [s[2]]);
    assert u.decomposition(p.head[0]) == HangulDecomposition(p.head[0]);
  }

  lemma MeaningAtStart(u: Ucd, s: seq<CodePoint>)
    requires s != []
    ensures Meaning(u, Segment(s[0], [], s[1..])) == Decompose(u, s)
  {
    assert u.decomposition(s[0]) + [] == u.decomposition(s[0]);
  }

  lemma SegmentPiece(u: Ucd, s: seq<CodePoint>)
    requires PairsOK(u) && IsOrderly(u, s) && s != []
    ensures var r := Absorb(u, Segment(s[0], [], s[1..]));
            SegmentOK(u, r) && SameMeaning(u, Meaning(u, r), Decompose(u, s))
  {
    hide Absorb, Sort, Decompose, Meaning;
    var g := Segment(s[0], [], s[1..]);
    TailIsOrderly(u, s, 1);
    AbsorbKeepsMeaning(u, [], g);
    MeaningAtStart(u, s);
    forall pre: seq<CodePoint> ensures Sort(u, pre + Meaning(u, Absorb(u, g))) == Sort(u, pre + Decompose(u, s)) {
      AbsorbKeepsMeaning(u, pre, g);
    }
  }

  lemma DecomposeSegment(u: Ucd, g: Segment)
    ensures Decompose(u, [g.starter] + g.skipped) + Decompose(u, g.rest) == Meaning(u, g)
  {
    DecomposeConcat(u, [g.starter], g.skipped);
    DecomposeOne(u, g.starter);
  }

  lemma JamoStandForThemselves(u: Ucd, s: seq<CodePoint>, n: nat)
    requires HangulOK(u) && n <= |s| && forall i | 0 <= i < n :: IsJamo(s[i])
    ensures Decompose(u, s) == s[..n] + Decompose(u, s[n..])
  {
    assert s == s[..n] + s[n..];
    DecomposeConcat(u, s[..n], s[n..]);
    DecomposeOfDecomposed(u, s[..n]);
  }

  lemma SyllableMeans(u: Ucd, s: seq<CodePoint>, p: Piece)
    requires HangulOK(u) && |p.head| == 1 && p.used <= |s| && u.decomposition(p.head[0]) == s[..p.used]
    requires forall i | 0 <= i < p.used :: IsJamo(s[i])
    ensures Decompose(u, p.head) + Decompose(u, s[p.used..]) == Decompose(u, s)
  {
    JamoStandForThemselves(u, s, p.used);
    DecomposeOne(u, p.head[0]);
    assert p.head == [p.head[0]];
  }

  lemma SingleMeans(u: Ucd, s: seq<CodePoint>)
    requires s != []
    ensures Decompose(u, [s[0]]) + Decompose(u, s[1..]) == Decompose(u, s)
  {
    DecomposeOne(u, s[0]);
  }

  lemma UcdHasPairs(u: Ucd)
    requires UcdOK(u)
    ensures PairsOK(u)
  {
  }

  lemma TablePiece(u: Ucd, s: seq<CodePoint>)
    requires s != [] && !IsL(s[0]) && !IsSyllable(s[0]) && s[0] < UNICODE_END
    ensures var p, r := FirstPiece(u, s), Absorb(u, Segment(s[0], [], s[1..]));
            p.head == [r.starter] + r.skipped && s[p.used..] == r.rest
  {
    hide Absorb;
    AbsorbLeavesSuffix(u, Segment(s[0], [], s[1..]));
  }

  // A piece means the same as the characters it stands for, unless it is a merged syllable.
  lemma PieceKeepsMeaning(u: Ucd, s: seq<CodePoint>)
    requires UcdOK(u) && IsOrderly(u, s) && s != [] && !HasMerge(s)
    ensures var p := FirstPiece(u, s);
            SameMeaning(u, Decompose(u, p.head) + Decompose(u, s[p.used..]), Decompose(u, s))
  {
    hide Absorb, Sort, Decompose;
    var p := FirstPiece(u, s);
    if IsL(s[0]) && |s| > 1 && IsV(s[1]) {
      hide FirstPiece;
      SyllablePiece(u, s);
      SyllableMeans(u, s, p);
    } else if IsL(s[0]) || IsSyllable(s[0]) || s[0] >= UNICODE_END {
      assert !IsMerge(s, 0);
      assert p == Piece([s[0]], 1);
      SingleMeans(u, s);
    } else {
      hide FirstPiece, UcdOK, SameMeaning, IsOrderly;
      UcdHasPairs(u);
      TablePiece(u, s);
      SegmentPiece(u, s);
      DecomposeSegment(u, Absorb(u, Segment(s[0], [], s[1..])));
    }
  }

  lemma {:induction false} ComposeKeepsMeaning(u: Ucd, pre: seq<CodePoint>, s: seq<CodePoint>)
    requires UcdOK(u) && IsOrderly(u, s) && !HasMerge(s)
    ensures Sort(u, pre + Decompose(u, Compose(u, s))) == Sort(u, pre + Decompose(u, s))
    decreases |s|
  {
    hide Sort, FirstPiece, HasMerge;
    if s == [] {
    } else {
      var p := FirstPiece(u, s);
      PieceKeepsMeaning(u, s);
      TailIsOrderly(u, s, p.used);
      TailHasNoMore(s, p.used);
      ComposeKeepsMeaning(u, pre + Decompose(u, p.head), s[p.used..]);
      PrefixKeepsMeaning(u, pre, p.head, Compose(u, s[p.used..]), Decompose(u, s[p.used..]));
    }
  }

  // Decomposing what was composed gives back the text that was composed.
  lemma ComposeThenDecompose(u: Ucd, s: seq<CodePoint>)
    requires UcdOK(u) && IsNfd(u, s)
    ensures Nfd(u, Compose(u, s)) == s
  {
    hide Compose, Sort, Decompose, HasMerge, HasGap;
    NfdIsOrderly(u, s);
    ComposeKeepsMeaning(u, [], s);
    assert [] + Decompose(u, Compose(u, s)) == Decompose(u, Compose(u, s)) && [] + s == s;
    DecomposeOfDecomposed(u, s);
    SortOfOrdered(u, s);
  }
}
