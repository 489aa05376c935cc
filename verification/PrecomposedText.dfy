// compose on text that is in order but not decomposed: starters may be precomposed. Its branch
// for syllables tests for a remainder that is not zero where only a zero remainder should take a
// trailing consonant. What that does to a text, and to which texts.
module PrecomposedText {
  import opened UnicodeData
  import opened CanonicalDecomposition
  import opened CanonicalComposition
  import opened CanonicalEquivalence
  import opened ComposedForm

  // ---------- a merge loses something ----------

  function Size(u: Ucd, s: seq<CodePoint>): nat {
    |Decompose(u, s)|
  }

  lemma SizeConcat(u: Ucd, a: seq<CodePoint>, b: seq<CodePoint>)
    ensures Size(u, a + b) == Size(u, a) + Size(u, b)
  {
    DecomposeConcat(u, a, b);
  }

  lemma SizeNone(u: Ucd)
    ensures Size(u, []) == 0
  {
  }

  lemma SizeOne(u: Ucd, c: CodePoint)
    ensures Size(u, [c]) == |u.decomposition(c)|
  {
    DecomposeOne(u, c);
  }

  lemma SizeHead(u: Ucd, s: seq<CodePoint>)
    requires s != []
    ensures Size(u, s) == |u.decomposition(s[0])| + Size(u, s[1..])
  {
  }

  function SegmentSize(u: Ucd, g: Segment): nat {
    |u.decomposition(g.starter)| + Size(u, g.skipped) + Size(u, g.rest)
  }

  // Whatever the order of the marks, a segment keeps the length of its decomposition.
  lemma {:induction false} AbsorbKeepsSize(u: Ucd, g: Segment)
    requires PairsOK(u)
    ensures SegmentSize(u, Absorb(u, g)) == SegmentSize(u, g)
    decreases |g.rest|
  {
    hide Size;
    if g.rest == [] {
    } else {
      var next, tail := g.rest[0], g.rest[1..];
      SizeHead(u, g.rest);
      if PreviousClass(u, g.skipped) < u.ccc(next) && u.pair(g.starter, next).Some? {
        assert PairOK(u, g.starter, next, u.pair(g.starter, next).value);
        AbsorbKeepsSize(u, Segment(u.pair(g.starter, next).value, g.skipped, tail));
      } else if u.ccc(next) != 0 {
        SizeConcat(u, g.skipped, [next]);
        SizeOne(u, next);
        AbsorbKeepsSize(u, Segment(g.starter, g.skipped + [next], tail));
      }
    }
  }

  // Four jamo become a syllable of at most three, or a character that is no syllable.
  lemma MergedSize(u: Ucd, s: seq<CodePoint>)
    requires HangulOK(u) && AfterSyllablesOK(u) && IsMerge(s, 0)
    ensures var p := FirstPiece(u, s); p.used == 2 && Size(u, p.head) <= 3 && Size(u, s[..2]) == 4
  {
    var c := Merged(s[0], s[1]);
    assert FirstPiece(u, s) == Piece([c], 2);
    SizeOne(u, c);
    SizeOne(u, s[0]);
    SizeOne(u, s[1]);
    SizeConcat(u, [s[0]], [s[1]]);
    assert s[..2] == [s[0]] + [s[1]];
    assert u.decomposition(s[1]) == [s[1]];
    assert |HangulDecomposition(s[0])| == 3;
    if IsSyllable(c) {
      assert |HangulDecomposition(c)| <= 3;
    }
  }

  lemma PartsOfSize(u: Ucd, a: seq<CodePoint>, b: seq<CodePoint>, s: seq<CodePoint>)
    requires Decompose(u, a) + Decompose(u, b) == Decompose(u, s)
    ensures Size(u, a) + Size(u, b) == Size(u, s)
  {
  }

  lemma OtherPieceSize(u: Ucd, s: seq<CodePoint>)
    requires UcdOK(u) && s != [] && !IsMerge(s, 0)
    ensures var p := FirstPiece(u, s); Size(u, p.head) + Size(u, s[p.used..]) == Size(u, s)
  {
    hide Size, Absorb;
    var p := FirstPiece(u, s);
    SizeHead(u, s);
    if IsL(s[0]) && |s| > 1 && IsV(s[1]) {
      SyllablePiece(u, s);
      SyllableMeans(u, s, p);
      PartsOfSize(u, p.head, s[p.used..], s);
    } else if IsL(s[0]) || IsSyllable(s[0]) || s[0] >= UNICODE_END {
      SizeOne(u, s[0]);
    } else {
      var g := Segment(s[0], [], s[1..]);
      var r := Absorb(u, g);
      AbsorbKeepsSize(u, g);
      AbsorbLeavesSuffix(u, g);
      SizeConcat(u, [r.starter], r.skipped);
      SizeOne(u, r.starter);
      SizeNone(u);
      assert r.rest == s[p.used..];
    }
  }

  lemma SyllableIsAlone(u: Ucd, c: CodePoint)
    requires UcdOK(u) && IsSyllable(c)
    ensures u.ccc(c) == 0 && forall a: CodePoint :: u.pair(a, c).None?
  {
    forall a: CodePoint ensures u.pair(a, c).None? {
      if u.pair(a, c).Some? {
        PairIsOK(u, a, c);
      }
    }
  }

  // A syllable is taken up by no piece but its own.
  lemma {:induction false} AbsorbStopsAtSyllable(u: Ucd, g: Segment, i: nat)
    requires UcdOK(u) && i < |g.rest| && IsSyllable(g.rest[i])
    ensures |g.rest| - i <= |Absorb(u, g).rest|
    decreases |g.rest|
  {
    hide UcdOK, IsSyllable, PreviousClass;
    var next, tail := g.rest[0], g.rest[1..];
    if i == 0 {
      SyllableIsAlone(u, next);
    } else if PreviousClass(u, g.skipped) < u.ccc(next) && u.pair(g.starter, next).Some? {
      AbsorbStopsAtSyllable(u, Segment(u.pair(g.starter, next).value, g.skipped, tail), i - 1);
    } else if u.ccc(next) != 0 {
      AbsorbStopsAtSyllable(u, Segment(g.starter, g.skipped + [next], tail), i - 1);
    }
  }

  lemma SyllableBeginsPiece(u: Ucd, s: seq<CodePoint>, i: nat)
    requires UcdOK(u) && 0 < i < |s| && IsSyllable(s[i])
    ensures FirstPiece(u, s).used <= i
  {
    if !IsL(s[0]) && !IsSyllable(s[0]) && s[0] < UNICODE_END {
      AbsorbStopsAtSyllable(u, Segment(s[0], [], s[1..]), i - 1);
    }
  }

  // A merge after the first piece is a merge in the rest.
  lemma MergeIsLater(u: Ucd, s: seq<CodePoint>)
    requires UcdOK(u) && s != [] && HasMerge(s) && !IsMerge(s, 0)
    ensures HasMerge(s[FirstPiece(u, s).used..])
  {
    hide FirstPiece, UcdOK;
    var i: nat :| IsMerge(s, i);
    SyllableBeginsPiece(u, s, i);
    var n := FirstPiece(u, s).used;
    PlaceInTail(s, n, i - n);
  }

  lemma {:induction false} ComposeNeverGrows(u: Ucd, s: seq<CodePoint>)
    requires UcdOK(u) && AfterSyllablesOK(u)
    ensures Size(u, Compose(u, s)) <= Size(u, s)
    ensures HasMerge(s) ==> Size(u, Compose(u, s)) < Size(u, s)
    decreases |s|
  {
    hide FirstPiece, Size, HasMerge, UcdOK, AfterSyllablesOK;
    if s != [] {
      var p := FirstPiece(u, s);
      var rest := s[p.used..];
      ComposeNeverGrows(u, rest);
      SizeConcat(u, p.head, Compose(u, rest));
      if IsMerge(s, 0) {
        UcdGivesHangul(u);
        MergedSize(u, s);
        SizeConcat(u, s[..p.used], rest);
        assert s == s[..p.used] + rest;
      } else {
        OtherPieceSize(u, s);
        if HasMerge(s) {
          MergeIsLater(u, s);
        }
      }
    } else {
      NothingToMerge();
    }
  }

  lemma UcdGivesHangul(u: Ucd)
    requires UcdOK(u)
    ensures HangulOK(u) && PairsOK(u) && DecompositionsOK(u)
  {
  }

  lemma NothingToMerge()
    ensures !HasMerge([])
  {
  }

  // A text that holds a merge, whatever else it holds, loses its meaning.
  lemma MergeChangesMeaning(u: Ucd, s: seq<CodePoint>)
    requires UcdOK(u) && AfterSyllablesOK(u)
    ensures HasMerge(s) ==> !AreEquivalent(u, s, Compose(u, s))
  {
    hide HasMerge, AreEquivalent, Compose, Decompose;
    ComposeNeverGrows(u, s);
    NfdDecidesEquivalence(u, s, Compose(u, s));
    assert |Nfd(u, s)| == Size(u, s) && |Nfd(u, Compose(u, s))| == Size(u, Compose(u, s));
  }

  // On text in order compose keeps meaning exactly when there is no merge.
  lemma ComposeKeepsMeaningIff(u: Ucd, s: seq<CodePoint>)
    requires UcdOK(u) && AfterSyllablesOK(u)
    ensures HasMerge(s) ==> !AreEquivalent(u, s, Compose(u, s))
    ensures IsOrderly(u, s) ==> (AreEquivalent(u, s, Compose(u, s)) <==> !HasMerge(s))
    ensures MarksOK(u) && InOrder(u, s) ==> (AreEquivalent(u, s, Compose(u, s)) <==> !HasMerge(s))
  {
    hide HasMerge, AreEquivalent, Compose;
    MergeChangesMeaning(u, s);
    if IsOrderly(u, s) && !HasMerge(s) {
      ComposeKeepsMeaning(u, [], s);
      assert [] + Decompose(u, s) == Decompose(u, s);
      assert [] + Decompose(u, Compose(u, s)) == Decompose(u, Compose(u, s));
      NfdDecidesEquivalence(u, s, Compose(u, s));
    }
  }

  // What the branch for syllables does, by code points: it adds up a syllable that has a trailing
  // consonant and the consonant after it, and leaves every other syllable as it is.
  lemma SyllableBranch(u: Ucd, s: seq<CodePoint>)
    requires s != [] && 0xAC00 <= s[0] <= 0xD7A3
    ensures if |s| > 1 && (s[0] - 0xAC00) % 28 != 0 && 0x11A7 < s[1] < 0x11C3
            then Compose(u, s) == [s[0] + (s[1] - 0x11A7)] + Compose(u, s[2..])
            else Compose(u, s) == [s[0]] + Compose(u, s[1..])
  {
    HangulRanges(s[0]);
    var p := FirstPiece(u, s);
    assert Compose(u, s) == p.head + Compose(u, s[p.used..]);
  }

  // ---------- a syllable that should have taken a consonant does not ----------

  // A syllable and what its piece becomes are found again in the composed text, followed by the
  // trailing consonant after the piece.
  lemma {:induction false} GapStays(u: Ucd, s: seq<CodePoint>, i: nat) returns (k: nat)
    requires UcdOK(u) && (IsGap(s, i) || IsMergedGap(s, i))
    ensures var y := Compose(u, s); k + 1 < |y| && HangulComposes(y[k], y[k + 1])
    decreases |s|
  {
    hide FirstPiece, UcdOK, HangulComposes;
    var p := FirstPiece(u, s);
    var rest := s[p.used..];
    if i == 0 {
      GapIsTwoPieces(u, s);
      k := 0;
    } else {
      SyllableBeginsPiece(u, s, i);
      PlaceInTail(s, p.used, i - p.used);
      k := GapStays(u, rest, i - p.used);
      k := k + |p.head|;
    }
  }

  lemma GapIsTwoPieces(u: Ucd, s: seq<CodePoint>)
    requires UcdOK(u) && (IsGap(s, 0) || IsMergedGap(s, 0))
    ensures var y := Compose(u, s); |y| > 1 && HangulComposes(y[0], y[1])
  {
    var p := FirstPiece(u, s);
    var rest := s[p.used..];
    assert p == if IsGap(s, 0) then Piece([s[0]], 1) else Piece([Merged(s[0], s[1])], 2);
    ConsonantBeginsPiece(u, rest);
    assert Compose(u, s) == p.head + Compose(u, rest);
  }

  lemma ConsonantBeginsPiece(u: Ucd, s: seq<CodePoint>)
    requires UcdOK(u) && s != [] && IsT(s[0])
    ensures Compose(u, s) != [] && Compose(u, s)[0] == s[0]
  {
    JamoBeginsNoPair(u, s[0]);
    StarterStays(u, Segment(s[0], [], s[1..]));
    assert FirstPiece(u, s).head[0] == s[0];
  }

  lemma JamoBeginsNoPair(u: Ucd, c: CodePoint)
    requires UcdOK(u) && IsJamo(c)
    ensures forall b: CodePoint :: u.pair(c, b).None?
  {
  }

  lemma {:induction false} StarterStays(u: Ucd, g: Segment)
    requires forall b: CodePoint :: u.pair(g.starter, b).None?
    ensures Absorb(u, g).starter == g.starter
    decreases |g.rest|
  {
    if g.rest != [] && u.ccc(g.rest[0]) != 0 {
      StarterStays(u, Segment(g.starter, g.skipped + [g.rest[0]], g.rest[1..]));
    }
  }

  // On text in order compose is maximal exactly when no syllable, read or merged, is left before a
  // consonant it could take; and on no text that holds such a place.
  lemma ComposeIsMaximalIff(u: Ucd, s: seq<CodePoint>)
    requires UcdOK(u)
    ensures HasGap(s) ==> !IsMaximal(u, Compose(u, s))
    ensures IsOrderly(u, s) && (HasMerge(s) ==> AfterSyllablesOK(u)) ==> (IsMaximal(u, Compose(u, s)) <==> !HasGap(s))
    ensures MarksOK(u) && AfterSyllablesOK(u) && InOrder(u, s) ==> (IsMaximal(u, Compose(u, s)) <==> !HasGap(s))
  {
    hide Compose, UcdOK, HasMerge, IsGap, IsMergedGap, HangulComposes, AfterSyllablesOK;
    if HasGap(s) {
      var i: nat :| IsGap(s, i) || IsMergedGap(s, i);
      var k := GapStays(u, s, i);
      assert !IsMaximal(u, Compose(u, s));
    } else if IsOrderly(u, s) && (HasMerge(s) ==> AfterSyllablesOK(u)) {
      OrderlyIsMaximal(u, s);
    }
  }

  // A syllable that could take the consonant after it, and is left as it is.
  lemma GapSample(u: Ucd)
    requires UcdOK(u)
    ensures var s: seq<CodePoint> := [HANGUL_SBASE, HANGUL_TBASE + 1]; HasGap(s) && !IsMaximal(u, Compose(u, s))
  {
    var s: seq<CodePoint> := [HANGUL_SBASE, HANGUL_TBASE + 1];
    assert IsGap(s, 0);
    ComposeIsMaximalIff(u, s);
  }

  // Two consonants after a syllable that has one: the first is merged into a syllable that could
  // take the second.
  lemma MergedGapSample(u: Ucd)
    requires UcdOK(u)
    ensures var s: seq<CodePoint> := [HANGUL_SBASE + 1, HANGUL_TBASE + 27, HANGUL_TBASE + 1];
            HasGap(s) && !IsMaximal(u, Compose(u, s))
  {
    var s: seq<CodePoint> := [HANGUL_SBASE + 1, HANGUL_TBASE + 27, HANGUL_TBASE + 1];
    assert IsMergedGap(s, 0);
    ComposeIsMaximalIff(u, s);
  }
}
