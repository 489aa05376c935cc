// The composed form is maximal: nothing that could still be composed is left in it.
module ComposedForm {
  import opened UnicodeData
  import opened CanonicalDecomposition
  import opened CanonicalComposition

  // y[j] is not blocked from y[i]: everything between them is a mark of lower class than y[j].
  ghost predicate Unblocked(u: Ucd, y: seq<CodePoint>, i: nat, j: nat) {
    && i < j < |y|
    && forall m | i < m < j :: 0 < u.ccc(y[m]) < u.ccc(y[j])
  }

  predicate HangulComposes(a: CodePoint, b: CodePoint) {
    (IsL(a) && IsV(b)) || (IsLV(a) && IsT(b))
  }

  // No character composes with an unblocked later one, by table or by Hangul arithmetic.
  ghost predicate IsMaximal(u: Ucd, y: seq<CodePoint>) {
    && (forall i: nat, j: nat | Unblocked(u, y, i, j) :: u.pair(y[i], y[j]).None?)
    && (forall i: nat, j: nat | i < j == i + 1 < |y| :: !HangulComposes(y[i], y[j]))
  }

  // c composes with nothing in y when placed before it.
  ghost predicate Inert(u: Ucd, c: CodePoint, y: seq<CodePoint>) {
    && (forall j: nat | Unblocked(u, [c] + y, 0, j) :: u.pair(c, y[j - 1]).None?)
    && (y != [] ==> !HangulComposes(c, y[0]))
  }

  lemma UnblockedInTail(u: Ucd, c: CodePoint, y: seq<CodePoint>, i: nat, j: nat)
    requires 0 < i && Unblocked(u, [c] + y, i, j)
    ensures Unblocked(u, y, i - 1, j - 1)
  {
    assert forall m | 0 <= m < |y| :: y[m] == ([c] + y)[m + 1];
  }

  lemma MaximalCons(u: Ucd, c: CodePoint, y: seq<CodePoint>)
    requires Inert(u, c, y) && IsMaximal(u, y)
    ensures IsMaximal(u, [c] + y)
  {
    var z := [c] + y;
    forall i: nat, j: nat | Unblocked(u, z, i, j) ensures u.pair(z[i], z[j]).None? {
      if i > 0 {
        UnblockedInTail(u, c, y, i, j);
      }
    }
    forall i: nat, j: nat | i < j == i + 1 < |z| ensures !HangulComposes(z[i], z[j]) {
      if i > 0 {
        assert !HangulComposes(y[i - 1], y[j - 1]);
      }
    }
  }

  lemma PairIsOK(u: Ucd, a: CodePoint, b: CodePoint)
    requires UcdOK(u) && u.pair(a, b).Some?
    ensures PairOK(u, a, b, u.pair(a, b).value)
  {
  }

  lemma MarkIsInert(u: Ucd, mark: CodePoint, y: seq<CodePoint>)
    requires UcdOK(u) && u.ccc(mark) > 0
    ensures Inert(u, mark, y)
  {
    forall b: CodePoint ensures u.pair(mark, b).None? {
      if u.pair(mark, b).Some? {
        PairIsOK(u, mark, b);
      }
    }
  }

  // Marks begin no pair, so they can stand before any maximal text.
  lemma {:induction false} MarksAreInert(u: Ucd, marks: seq<CodePoint>, y: seq<CodePoint>)
    requires UcdOK(u) && IsMaximal(u, y) && forall i | 0 <= i < |marks| :: u.ccc(marks[i]) > 0
    ensures IsMaximal(u, marks + y)
  {
    if marks == [] {
      assert marks + y == y;
    } else {
      MarksAreInert(u, marks[1..], y);
      MarkIsInert(u, marks[0], marks[1..] + y);
      MaximalCons(u, marks[0], marks[1..] + y);
      assert marks + y == [marks[0]] + (marks[1..] + y);
    }
  }

  // No skipped mark that is still unblocked composes with the starter.
  ghost predicate SkippedAreInert(u: Ucd, starter: CodePoint, skipped: seq<CodePoint>) {
    forall i | 0 <= i < |skipped| && IsHighest(u, skipped, i) :: u.pair(starter, skipped[i]).None?
  }

  // marks[i] has a higher class than everything before it.
  ghost predicate IsHighest(u: Ucd, marks: seq<CodePoint>, i: nat)
    requires i < |marks|
  {
    forall m | 0 <= m < i :: u.ccc(marks[m]) < u.ccc(marks[i])
  }

  // The second member of a pair comes, in canonical order, after all that the first stands for.
  lemma PairFollowsOrder(u: Ucd, a: CodePoint, b: CodePoint)
    requires UcdOK(u) && u.pair(a, b).Some?
    ensures u.decomposition(a) != []
    ensures u.ccc(b) == 0 || u.ccc(u.decomposition(a)[|u.decomposition(a)| - 1]) <= u.ccc(b)
  {
    var c := u.pair(a, b).value;
    PairIsOK(u, a, b);
    var d := u.decomposition(c);
    assert InOrder(u, d) && u.decomposition(a) != [];
    assert d[|d| - 2] == u.decomposition(a)[|u.decomposition(a)| - 1] && d[|d| - 1] == b;
  }

  // After composing with next, the new starter composes with no mark of lower class: its
  // decomposition would have next before that mark, out of canonical order.
  lemma CompositeRejectsLowerMarks(u: Ucd, a: CodePoint, next: CodePoint, m: CodePoint)
    requires UcdOK(u) && u.pair(a, next).Some? && 0 < u.ccc(m) < u.ccc(next)
    ensures u.pair(u.pair(a, next).value, m).None?
  {
    PairIsOK(u, a, next);
    if u.pair(u.pair(a, next).value, m).Some? {
      PairFollowsOrder(u, u.pair(a, next).value, m);
    }
  }

  // A mark skipped because it did not compose, or because an equal class blocks it, is inert.
  lemma SkipKeepsInert(u: Ucd, starter: CodePoint, marks: seq<CodePoint>, next: CodePoint)
    requires SkippedAreInert(u, starter, marks)
    requires marks == [] || u.ccc(marks[|marks| - 1]) < u.ccc(next) ==> u.pair(starter, next).None?
    ensures SkippedAreInert(u, starter, marks + [next])
  {
    hide IsHighest;
    var longer := marks + [next];
    forall i | 0 <= i < |longer| && IsHighest(u, longer, i) ensures u.pair(starter, longer[i]).None? {
      HighestOfLonger(u, marks, next, i);
      if i < |marks| {
        assert longer[i] == marks[i];
      }
    }
  }

  lemma HighestOfLonger(u: Ucd, marks: seq<CodePoint>, next: CodePoint, i: nat)
    requires i <= |marks| && IsHighest(u, marks + [next], i)
    ensures i < |marks| ==> IsHighest(u, marks, i)
    ensures i == |marks| && marks != [] ==> u.ccc(marks[i - 1]) < u.ccc(next)
  {
    var longer := marks + [next];
    assert forall m | 0 <= m < |marks| :: longer[m] == marks[m];
  }

  lemma {:induction false} AbsorbIsMaximal(u: Ucd, g: Segment)
    requires UcdOK(u) && SegmentOK(u, g) && SkippedAreInert(u, g.starter, g.skipped)
    ensures var r := Absorb(u, g);
            && SkippedAreInert(u, r.starter, r.skipped)
            && (r.rest != [] ==> u.ccc(r.rest[0]) == 0)
            && (r.rest != [] && r.skipped == [] ==> u.pair(r.starter, r.rest[0]).None?)
    decreases |g.rest|
  {
    hide UcdOK, IsHighest;
    if g.rest == [] {
    } else {
      var next, tail := g.rest[0], g.rest[1..];
      StepKeepsSegmentOK(u, g);
      if PreviousClass(u, g.skipped) < u.ccc(next) && u.pair(g.starter, next).Some? {
        var h := Segment(u.pair(g.starter, next).value, g.skipped, tail);
        forall i | 0 <= i < |g.skipped| ensures u.pair(h.starter, g.skipped[i]).None? {
          CompositeRejectsLowerMarks(u, g.starter, next, g.skipped[i]);
        }
        AbsorbIsMaximal(u, h);
      } else if u.ccc(next) != 0 {
        var h := Segment(g.starter, g.skipped + [next], tail);
        SkipKeepsInert(u, g.starter, g.skipped, next);
        AbsorbIsMaximal(u, h);
      }
    }
  }

  // A composite absorbed into, or the starter itself: never Hangul unless it was to begin with.
  lemma {:induction false} AbsorbedStarter(u: Ucd, g: Segment)
    requires UcdOK(u)
    ensures var c := Absorb(u, g).starter;
            c == g.starter || (u.ccc(c) == 0 && |u.decomposition(c)| > 1 && !IsSyllable(c) && !IsJamo(c))
    decreases |g.rest|
  {
    if g.rest == [] {
    } else {
      var next, tail := g.rest[0], g.rest[1..];
      if PreviousClass(u, g.skipped) < u.ccc(next) && u.pair(g.starter, next).Some? {
        var c := u.pair(g.starter, next).value;
        assert PairOK(u, g.starter, next, c);
        assert u.decomposition(g.starter) != [];
        AbsorbedStarter(u, Segment(c, g.skipped, tail));
      } else if u.ccc(next) != 0 {
        AbsorbedStarter(u, Segment(g.starter, g.skipped + [next], tail));
      }
    }
  }

  // What a merge yields, a syllable or not, is a starter in no pair.
  lemma MergedIsAlone(u: Ucd, a: CodePoint, b: CodePoint)
    requires UcdOK(u) && AfterSyllablesOK(u) && IsLVT(a) && IsT(b)
    ensures var c := Merged(a, b);
      && u.ccc(c) == 0 && !IsJamo(c)
      && (forall x: CodePoint :: u.pair(x, c).None?) && (forall x: CodePoint :: u.pair(c, x).None?)
  {
    var c := Merged(a, b);
    assert IsSyllable(c) || IsAfterSyllables(c);
    forall x: CodePoint ensures u.pair(x, c).None? {
      if IsSyllable(c) && u.pair(x, c).Some? {
        PairIsOK(u, x, c);
      }
    }
  }

  // The first composed character is the first character read, or a composite: a starter that
  // is second in no pair.
  lemma FirstComposed(u: Ucd, s: seq<CodePoint>)
    requires UcdOK(u) && s != [] && (HasMerge(s) ==> AfterSyllablesOK(u))
    ensures var c := FirstPiece(u, s).head[0];
            c == s[0] || (u.ccc(c) == 0 && !IsV(c) && !IsT(c) && forall a: CodePoint :: u.pair(a, c).None?)
  {
    var c := FirstPiece(u, s).head[0];
    if IsMerge(s, 0) {
      MergedIsAlone(u, s[0], s[1]);
    } else if c != s[0] {
      if IsL(s[0]) {
        SyllablePiece(u, s);
      } else {
        AbsorbedStarter(u, Segment(s[0], [], s[1..]));
      }
      forall a: CodePoint ensures u.pair(a, c).None? {
        if u.pair(a, c).Some? {
          PairIsOK(u, a, c);
        }
      }
    }
  }

  // A character that begins no pair is inert unless it is Hangul and the next character completes it.
  lemma SingleIsInert(u: Ucd, c: CodePoint, tail: seq<CodePoint>)
    requires UcdOK(u) && (HasMerge(tail) ==> AfterSyllablesOK(u))
    requires forall b: CodePoint :: u.pair(c, b).None?
    requires tail != [] ==> !HangulComposes(c, tail[0])
    ensures Inert(u, c, Compose(u, tail))
  {
    if tail != [] {
      FirstComposed(u, tail);
    }
  }

  // Composed text that was read from a starter on begins with it, or with a composite.
  lemma ComposedBegins(u: Ucd, s: seq<CodePoint>)
    requires UcdOK(u) && (HasMerge(s) ==> AfterSyllablesOK(u)) && (s != [] ==> u.ccc(s[0]) == 0)
    ensures var y := Compose(u, s);
      && (y == [] <==> s == [])
      && (y != [] ==> u.ccc(y[0]) == 0 && (y[0] == s[0] || forall a: CodePoint :: u.pair(a, y[0]).None?))
  {
    hide UcdOK, HasMerge, FirstPiece, AfterSyllablesOK;
    if s != [] {
      FirstComposed(u, s);
    }
  }

  // From before a run of marks that a starter follows, only the marks can be unblocked, each when
  // it is the highest so far; or the starter, if there are no marks.
  lemma UnblockedByMarks(u: Ucd, c: CodePoint, marks: seq<CodePoint>, y: seq<CodePoint>, j: nat)
    requires Unblocked(u, [c] + (marks + y), 0, j) && (y != [] ==> u.ccc(y[0]) == 0)
    ensures j <= |marks| ==> IsHighest(u, marks, j - 1)
    ensures j > |marks| ==> marks == [] && j == 1 && y != []
  {
    var z := [c] + (marks + y);
    assert forall m | 0 <= m < |marks| :: z[m + 1] == marks[m];
    if j > |marks| {
      var first := u.ccc(z[1]);
      assert z[|marks| + 1] == y[0];
      assert j == |marks| + 1;
      assert u.ccc(z[j]) == 0;
    }
  }

  lemma SegmentIsMaximal(u: Ucd, r: Segment)
    requires UcdOK(u) && SegmentOK(u, r) && SkippedAreInert(u, r.starter, r.skipped)
    requires (HasMerge(r.rest) ==> AfterSyllablesOK(u)) && (r.rest != [] ==> u.ccc(r.rest[0]) == 0)
    requires r.rest != [] && r.skipped == [] ==> u.pair(r.starter, r.rest[0]).None?
    requires !IsL(r.starter) && !IsSyllable(r.starter)
    requires IsMaximal(u, Compose(u, r.rest))
    ensures IsMaximal(u, [r.starter] + r.skipped + Compose(u, r.rest))
  {
    hide UcdOK, AfterSyllablesOK, Compose, HasMerge, IsHighest, IsMaximal;
    var y, sk := Compose(u, r.rest), r.skipped;
    ComposedBegins(u, r.rest);
    MarksAreInert(u, sk, y);
    forall j: nat | Unblocked(u, [r.starter] + (sk + y), 0, j) ensures u.pair(r.starter, (sk + y)[j - 1]).None? {
      UnblockedByMarks(u, r.starter, sk, y, j);
      if j <= |sk| {
        assert (sk + y)[j - 1] == sk[j - 1];
      }
    }
    MaximalCons(u, r.starter, sk + y);
    assert [r.starter] + sk + y == [r.starter] + (sk + y);
  }

  lemma SyllableIsMaximal(u: Ucd, s: seq<CodePoint>)
    requires UcdOK(u) && (HasMerge(s) ==> AfterSyllablesOK(u)) && |s| > 1 && IsL(s[0]) && IsV(s[1])
    requires IsMaximal(u, Compose(u, s[FirstPiece(u, s).used..]))
    ensures IsMaximal(u, Compose(u, s))
  {
    hide HasMerge, HasGap, AfterSyllablesOK;
    var p := FirstPiece(u, s);
    SyllablePiece(u, s);
    TailHasNoMore(s, p.used);
    SingleIsInert(u, p.head[0], s[p.used..]);
    assert p.head == [p.head[0]];
    MaximalCons(u, p.head[0], Compose(u, s[p.used..]));
  }

  lemma BeginsNoPair(u: Ucd, c: CodePoint)
    requires UcdOK(u) && (IsL(c) || IsSyllable(c) || c >= UNICODE_END)
    ensures forall b: CodePoint :: u.pair(c, b).None?
  {
    forall b: CodePoint ensures u.pair(c, b).None? {
      if u.pair(c, b).Some? {
        PairIsOK(u, c, b);
      }
    }
  }

  lemma SingleIsMaximal(u: Ucd, s: seq<CodePoint>)
    requires UcdOK(u) && (HasMerge(s) ==> AfterSyllablesOK(u)) && !HasGap(s) && s != []
    requires IsL(s[0]) || IsSyllable(s[0]) || s[0] >= UNICODE_END
    requires !(|s| > 1 && IsL(s[0]) && IsV(s[1])) && !IsMerge(s, 0)
    requires IsMaximal(u, Compose(u, s[FirstPiece(u, s).used..]))
    ensures IsMaximal(u, Compose(u, s))
  {
    assert FirstPiece(u, s) == Piece([s[0]], 1);
    assert !IsGap(s, 0);
    hide HasMerge, HasGap, AfterSyllablesOK;
    BeginsNoPair(u, s[0]);
    TailHasNoMore(s, 1);
    SingleIsInert(u, s[0], s[1..]);
    MaximalCons(u, s[0], Compose(u, s[1..]));
  }

  // A merge leaves nothing to compose unless it yields a syllable before another consonant.
  lemma MergeIsMaximal(u: Ucd, s: seq<CodePoint>)
    requires UcdOK(u) && AfterSyllablesOK(u) && !HasGap(s) && IsMerge(s, 0)
    requires IsMaximal(u, Compose(u, s[FirstPiece(u, s).used..]))
    ensures IsMaximal(u, Compose(u, s))
  {
    hide *;
    MergePiece(u, s);
    var c := Merged(s[0], s[1]);
    MergedIsAlone(u, s[0], s[1]);
    SingleIsInert(u, c, s[2..]);
    MaximalCons(u, c, Compose(u, s[2..]));
  }

  lemma MergePiece(u: Ucd, s: seq<CodePoint>)
    requires !HasGap(s) && IsMerge(s, 0)
    ensures |s| > 1 && IsLVT(s[0]) && IsT(s[1]) && FirstPiece(u, s) == Piece([Merged(s[0], s[1])], 2)
    ensures Compose(u, s) == [Merged(s[0], s[1])] + Compose(u, s[2..])
    ensures |s| > 2 ==> !HangulComposes(Merged(s[0], s[1]), s[2])
  {
    hide Absorb;
    assert !IsMergedGap(s, 0);
    assert FirstPiece(u, s) == Piece([Merged(s[0], s[1])], 2);
  }

  lemma TableSegmentIsMaximal(u: Ucd, s: seq<CodePoint>)
    requires UcdOK(u) && IsOrderly(u, s) && s != [] && !IsL(s[0]) && !IsSyllable(s[0]) && s[0] < UNICODE_END
    requires var rest := s[FirstPiece(u, s).used..];
      (HasMerge(rest) ==> AfterSyllablesOK(u)) && IsMaximal(u, Compose(u, rest))
    ensures IsMaximal(u, Compose(u, s))
  {
    hide IsMaximal, HasMerge, AfterSyllablesOK;
    var used := FirstPiece(u, s).used;
    var g := Segment(s[0], [], s[1..]);
    var r := Absorb(u, g);
    SegmentPiece(u, s);
    TailIsOrderly(u, s, 1);
    AbsorbIsMaximal(u, g);
    AbsorbedStarter(u, g);
    AbsorbLeavesSuffix(u, g);
    assert r.rest == s[used..];
    SegmentIsMaximal(u, r);
  }

  // Starters may be precomposed, as long as no syllable is left before a consonant it could take.
  lemma {:induction false} OrderlyIsMaximal(u: Ucd, s: seq<CodePoint>)
    requires UcdOK(u) && IsOrderly(u, s) && (HasMerge(s) ==> AfterSyllablesOK(u)) && !HasGap(s)
    ensures IsMaximal(u, Compose(u, s))
    decreases |s|
  {
    if s == [] {
    } else {
      if IsMerge(s, 0) {
        assert HasMerge(s);
      }
      hide HasMerge, HasGap, IsMaximal, FirstPiece, Compose, UcdOK, AfterSyllablesOK, IsOrderly, IsMerge;
      hide IsL, IsV, IsSyllable;
      var used := FirstPiece(u, s).used;
      TailIsOrderly(u, s, used);
      TailHasNoMore(s, used);
      OrderlyIsMaximal(u, s[used..]);
      if IsL(s[0]) && |s| > 1 && IsV(s[1]) {
        SyllableIsMaximal(u, s);
      } else if IsMerge(s, 0) {
        MergeIsMaximal(u, s);
      } else if IsL(s[0]) || IsSyllable(s[0]) || s[0] >= UNICODE_END {
        SingleIsMaximal(u, s);
      } else {
        TableSegmentIsMaximal(u, s);
      }
    }
  }

  // compose leaves nothing to compose, although a skipped mark is never tried again.
  lemma ComposeIsMaximal(u: Ucd, s: seq<CodePoint>)
    requires UcdOK(u) && IsNfd(u, s)
    ensures IsMaximal(u, Compose(u, s))
  {
    hide FirstPiece, IsMaximal;
    NfdIsOrderly(u, s);
    OrderlyIsMaximal(u, s);
  }
}
