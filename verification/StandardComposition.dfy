// The canonical composition algorithm as section 3.11 of the Unicode Standard defines it, one
// character at a time looking back to the last starter, and the proof of what compose computes on
// every text: that algorithm, unless a syllable stands before a trailing consonant.
module StandardComposition {
  import opened Wrappers
  import opened UnicodeData
  import opened CanonicalDecomposition
  import opened CanonicalComposition
  import opened ComposedForm
  import opened PrecomposedText

  // The index of the last starter, or -1.
  function LastStarter(u: Ucd, out: seq<CodePoint>): (i: int)
    ensures -1 <= i < |out|
    ensures i >= 0 ==> u.ccc(out[i]) == 0
    ensures forall m | i < m < |out| :: u.ccc(out[m]) > 0
  {
    if out == [] then -1
    else if u.ccc(out[|out| - 1]) == 0 then |out| - 1
    else LastStarter(u, out[..|out| - 1])
  }

  // The primary composite of a and b, from the table or by Hangul arithmetic.
  function PrimaryComposite(u: Ucd, a: CodePoint, b: CodePoint): Option<CodePoint> {
    if IsL(a) && IsV(b) then Some(SyllableLV(a, b))
    else if IsLV(a) && IsT(b) then Some(a + (b - HANGUL_TBASE))
    else u.pair(a, b)
  }

  // Which of the characters after the starter can block: all of them, as the standard says, or
  // only the last one, as the program says. On text in order it is the same.
  datatype Rule = Standard | LastOnly

  // c is separated from the character at i by nothing of class 0 and nothing of its own class or above.
  predicate NotBlocked(u: Ucd, rule: Rule, out: seq<CodePoint>, i: nat, c: CodePoint) {
    forall m | i < m < |out| && (rule.LastOnly? ==> m == |out| - 1) :: 0 < u.ccc(out[m]) < u.ccc(c)
  }

  // Replaces the last starter by its composite with c, or appends c.
  function Put(u: Ucd, rule: Rule, out: seq<CodePoint>, c: CodePoint): seq<CodePoint> {
    var i := LastStarter(u, out);
    if i >= 0 && NotBlocked(u, rule, out, i, c) && PrimaryComposite(u, out[i], c).Some? then
      out[i := PrimaryComposite(u, out[i], c).value]
    else
      out + [c]
  }

  function PutAll(u: Ucd, rule: Rule, out: seq<CodePoint>, s: seq<CodePoint>): seq<CodePoint>
    decreases |s|
  {
    if s == [] then out else PutAll(u, rule, Put(u, rule, out, s[0]), s[1..])
  }

  ghost predicate AreMarks(u: Ucd, s: seq<CodePoint>) {
    forall i | 0 <= i < |s| :: u.ccc(s[i]) > 0
  }

  lemma LastStarterIs(u: Ucd, out: seq<CodePoint>, i: nat)
    requires i < |out| && u.ccc(out[i]) == 0 && forall m | i < m < |out| :: u.ccc(out[m]) > 0
    ensures LastStarter(u, out) == i
  {
  }

  // Composites are starters.
  lemma CompositeIsStarter(u: Ucd, a: CodePoint, b: CodePoint)
    requires UcdOK(u) && PrimaryComposite(u, a, b).Some?
    ensures u.ccc(PrimaryComposite(u, a, b).value) == 0
  {
    if IsL(a) && IsV(b) {
      assert IsSyllable(SyllableLV(a, b));
    } else if IsLV(a) && IsT(b) {
      assert IsSyllable(a + (b - HANGUL_TBASE));
    } else {
      PairIsOK(u, a, b);
    }
  }

  // What comes before a starter plays no part in what follows it.
  lemma PutIsLocal(u: Ucd, rule: Rule, pre: seq<CodePoint>, out: seq<CodePoint>, c: CodePoint)
    requires UcdOK(u) && out != [] && u.ccc(out[0]) == 0
    ensures Put(u, rule, pre + out, c) == pre + Put(u, rule, out, c)
    ensures Put(u, rule, out, c) != [] && u.ccc(Put(u, rule, out, c)[0]) == 0
  {
    hide PrimaryComposite, UcdOK;
    var i := LastStarter(u, out);
    var all := pre + out;
    assert forall m | 0 <= m < |out| :: all[|pre| + m] == out[m];
    assert forall m | |pre| + i < m < |all| :: all[m] == out[m - |pre|];
    LastStarterIs(u, all, |pre| + i);
    assert NotBlocked(u, rule, all, |pre| + i, c) == NotBlocked(u, rule, out, i, c);
    if PrimaryComposite(u, out[i], c).Some? {
      CompositeIsStarter(u, out[i], c);
      assert all[|pre| + i := PrimaryComposite(u, out[i], c).value] ==
          pre + out[i := PrimaryComposite(u, out[i], c).value];
    }
  }

  lemma {:induction false} PutAllIsLocal(
    u: Ucd, rule: Rule, pre: seq<CodePoint>, out: seq<CodePoint>, s: seq<CodePoint>)
    requires UcdOK(u) && out != [] && u.ccc(out[0]) == 0
    ensures PutAll(u, rule, pre + out, s) == pre + PutAll(u, rule, out, s)
    decreases |s|
  {
    hide Put, UcdOK;
    if s == [] {
    } else {
      PutIsLocal(u, rule, pre, out, s[0]);
      PutAllIsLocal(u, rule, pre, Put(u, rule, out, s[0]), s[1..]);
    }
  }

  lemma PutAppends(u: Ucd, rule: Rule, out: seq<CodePoint>, c: CodePoint)
    requires var i := LastStarter(u, out);
      i < 0 || !NotBlocked(u, rule, out, i, c) || PrimaryComposite(u, out[i], c).None?
    ensures Put(u, rule, out, c) == out + [c]
  {
  }

  // A character that begins no pair and is not completed by Hangul arithmetic.
  ghost predicate StartsNothing(u: Ucd, h: CodePoint, sk: seq<CodePoint>, s: seq<CodePoint>) {
    && (forall b: CodePoint :: u.pair(h, b).None?)
    && (sk == [] && s != [] ==> !HangulComposes(h, s[0]))
  }

  lemma MarksAreNotHangul(u: Ucd, a: CodePoint, b: CodePoint)
    requires HangulOK(u) && (u.ccc(a) > 0 || u.ccc(b) > 0)
    ensures !HangulComposes(a, b)
  {
  }

  lemma PutAfterMarks(u: Ucd, rule: Rule, sk: seq<CodePoint>, c: CodePoint)
    requires AreMarks(u, sk)
    ensures Put(u, rule, sk, c) == sk + [c]
  {
    assert LastStarter(u, sk) == -1;
  }

  lemma PutAfterInert(u: Ucd, rule: Rule, h: CodePoint, sk: seq<CodePoint>, s: seq<CodePoint>)
    requires HangulOK(u) && AreMarks(u, sk) && s != [] && StartsNothing(u, h, sk, s)
    ensures Put(u, rule, [h] + sk, s[0]) == [h] + sk + [s[0]]
  {
    var out := [h] + sk;
    assert forall m | 0 <= m < |sk| :: out[m + 1] == sk[m];
    if u.ccc(h) > 0 {
      PutAfterMarks(u, rule, out, s[0]);
    } else {
      LastStarterIs(u, out, 0);
      if u.ccc(s[0]) > 0 {
        MarksAreNotHangul(u, h, s[0]);
      }
      PutAppends(u, rule, out, s[0]);
    }
  }

  // An inert character stays where it is, whatever follows.
  lemma {:induction false} InertStays(u: Ucd, rule: Rule, h: CodePoint, sk: seq<CodePoint>, s: seq<CodePoint>)
    requires UcdOK(u) && AreMarks(u, sk) && StartsNothing(u, h, sk, s)
    ensures PutAll(u, rule, [h] + sk, s) == [h] + PutAll(u, rule, sk, s)
    decreases |s|
  {
    hide Put;
    if s == [] {
    } else {
      var n, tail := s[0], s[1..];
      PutAfterInert(u, rule, h, sk, s);
      PutAfterMarks(u, rule, sk, n);
      if u.ccc(n) > 0 {
        InertStays(u, rule, h, sk + [n], tail);
        assert [h] + (sk + [n]) == [h] + sk + [n];
      } else {
        PutAllIsLocal(u, rule, [h] + sk, [n], tail);
        PutAllIsLocal(u, rule, sk, [n], tail);
      }
    }
  }

  lemma PutFirst(u: Ucd, rule: Rule, s: seq<CodePoint>)
    requires s != []
    ensures PutAll(u, rule, [], s) == PutAll(u, rule, [s[0]], s[1..])
  {
    PutAfterMarks(u, rule, [], s[0]);
  }

  lemma InertFirst(u: Ucd, rule: Rule, h: CodePoint, s: seq<CodePoint>)
    requires UcdOK(u) && StartsNothing(u, h, [], s)
    ensures PutAll(u, rule, [h], s) == [h] + PutAll(u, rule, [], s)
  {
    InertStays(u, rule, h, [], s);
    assert [h] + [] == [h];
  }

  lemma MarkStartsNothing(u: Ucd, m: CodePoint, s: seq<CodePoint>)
    requires UcdOK(u) && u.ccc(m) > 0
    ensures StartsNothing(u, m, [], s)
  {
    forall b: CodePoint ensures u.pair(m, b).None? {
      if u.pair(m, b).Some? {
        PairIsOK(u, m, b);
      }
    }
    if s != [] {
      MarksAreNotHangul(u, m, s[0]);
    }
  }

  lemma {:induction false} LeadingMarksStay(u: Ucd, rule: Rule, marks: seq<CodePoint>, s: seq<CodePoint>)
    requires UcdOK(u) && AreMarks(u, marks)
    ensures PutAll(u, rule, [], marks + s) == marks + PutAll(u, rule, [], s)
    decreases |marks|
  {
    hide PutAll, UcdOK;
    if marks == [] {
      assert marks + s == s;
    } else {
      var all := marks + s;
      assert all[1..] == marks[1..] + s;
      PutFirst(u, rule, all);
      MarkStartsNothing(u, marks[0], all[1..]);
      InertFirst(u, rule, marks[0], all[1..]);
      LeadingMarksStay(u, rule, marks[1..], s);
    }
  }

  // A first character that begins no pair absorbs nothing and skips every mark.
  lemma {:induction false} InertAbsorbs(u: Ucd, g: Segment)
    requires forall b: CodePoint :: u.pair(g.starter, b).None?
    requires AreMarks(u, g.skipped)
    ensures var r := Absorb(u, g);
            r.starter == g.starter && AreMarks(u, r.skipped) && r.skipped + r.rest == g.skipped + g.rest
    decreases |g.rest|
  {
    if g.rest != [] && u.ccc(g.rest[0]) != 0 {
      InertAbsorbs(u, Segment(g.starter, g.skipped + [g.rest[0]], g.rest[1..]));
    }
  }

  // What the rule needs of a segment: marks passed over, and where all of them can block, in order.
  ghost predicate Suits(u: Ucd, rule: Rule, g: Segment) {
    && AreMarks(u, g.skipped)
    && (rule.Standard? ==>
          && InOrder(u, g.rest)
          && (forall i | 0 <= i < |g.skipped| :: u.ccc(g.skipped[i]) <= PreviousClass(u, g.skipped))
          && (g.rest != [] && u.ccc(g.rest[0]) > 0 ==> PreviousClass(u, g.skipped) <= u.ccc(g.rest[0])))
  }

  lemma StepKeepsSuits(u: Ucd, rule: Rule, g: Segment)
    requires Suits(u, rule, g) && g.rest != []
    ensures var next := g.rest[0];
            && (forall c: CodePoint | PreviousClass(u, g.skipped) < u.ccc(next) ::
                  Suits(u, rule, Segment(c, g.skipped, g.rest[1..])))
            && (u.ccc(next) != 0 ==> Suits(u, rule, Segment(g.starter, g.skipped + [next], g.rest[1..])))
  {
  }

  // While a segment lasts, each step of Absorb is one step of the standard algorithm.
  lemma PutIsAbsorbStep(u: Ucd, rule: Rule, g: Segment)
    requires Suits(u, rule, g) && g.rest != [] && u.ccc(g.starter) == 0 && !IsL(g.starter) && !IsSyllable(g.starter)
    ensures var n, out := g.rest[0], [g.starter] + g.skipped;
            Put(u, rule, out, n) ==
            if PreviousClass(u, g.skipped) < u.ccc(n) && u.pair(g.starter, n).Some?
            then [u.pair(g.starter, n).value] + g.skipped
            else out + [n]
  {
    hide NotBlocked, LastStarter, Suits;
    var n, out := g.rest[0], [g.starter] + g.skipped;
    SegmentBlocks(u, rule, g);
    if u.pair(g.starter, n).Some? {
      assert out[0 := u.pair(g.starter, n).value] == [u.pair(g.starter, n).value] + g.skipped;
    }
  }

  // The class of the last skipped mark tells whether the next character is blocked.
  lemma SegmentBlocks(u: Ucd, rule: Rule, g: Segment)
    requires Suits(u, rule, g) && g.rest != [] && u.ccc(g.starter) == 0
    ensures var n, out := g.rest[0], [g.starter] + g.skipped;
            && LastStarter(u, out) == 0
            && (NotBlocked(u, rule, out, 0, n) <==> PreviousClass(u, g.skipped) < u.ccc(n))
  {
    hide LastStarter;
    var n, out, sk := g.rest[0], [g.starter] + g.skipped, g.skipped;
    assert forall m | 0 < m < |out| :: out[m] == sk[m - 1];
    LastStarterIs(u, out, 0);
    if sk != [] {
      assert out[|sk|] == sk[|sk| - 1];
    }
  }

  lemma {:induction false} AbsorbIsStandard(u: Ucd, rule: Rule, g: Segment)
    requires UcdOK(u) && Suits(u, rule, g)
    requires u.ccc(g.starter) == 0 && !IsL(g.starter) && !IsSyllable(g.starter)
    ensures var r := Absorb(u, g);
            PutAll(u, rule, [g.starter] + g.skipped, g.rest) == [r.starter] + r.skipped + PutAll(u, rule, [], r.rest)
    decreases |g.rest|
  {
    hide Put;
    if g.rest == [] {
    } else {
      var n, tail := g.rest[0], g.rest[1..];
      StepKeepsSuits(u, rule, g);
      PutIsAbsorbStep(u, rule, g);
      if PreviousClass(u, g.skipped) < u.ccc(n) && u.pair(g.starter, n).Some? {
        PairIsOK(u, g.starter, n);
        CompositeIsNotHangul(u, g.starter, n);
        AbsorbIsStandard(u, rule, Segment(u.pair(g.starter, n).value, g.skipped, tail));
      } else if u.ccc(n) != 0 {
        assert [g.starter] + g.skipped + [n] == [g.starter] + (g.skipped + [n]);
        AbsorbIsStandard(u, rule, Segment(g.starter, g.skipped + [n], tail));
      } else {
        PutAllIsLocal(u, rule, [g.starter] + g.skipped, [n], tail);
        PutFirst(u, rule, g.rest);
      }
    }
  }

  lemma CompositeIsNotHangul(u: Ucd, a: CodePoint, b: CodePoint)
    requires UcdOK(u) && u.pair(a, b).Some?
    ensures var c := u.pair(a, b).value; u.ccc(c) == 0 && !IsL(c) && !IsSyllable(c)
  {
    PairIsOK(u, a, b);
    assert u.decomposition(a) != [];
    assert |u.decomposition(u.pair(a, b).value)| > 1;
  }

  // ---------- one piece at a time ----------

  // L and V, and then T if there is one, become one syllable.
  lemma PutSyllable(u: Ucd, rule: Rule, s: seq<CodePoint>)
    requires HangulOK(u) && |s| > 1 && IsL(s[0]) && IsV(s[1])
    ensures Put(u, rule, [s[0]], s[1]) == [SyllableLV(s[0], s[1])]
    ensures |s| > 2 && IsT(s[2]) ==> Put(u, rule, [SyllableLV(s[0], s[1])], s[2]) == FirstPiece(u, s).head
  {
    HangulRoundTrip(s[0], s[1], 0);
    LastStarterIs(u, [s[0]], 0);
    LastStarterIs(u, [SyllableLV(s[0], s[1])], 0);
  }

  lemma PutAllStep(u: Ucd, rule: Rule, out: seq<CodePoint>, s: seq<CodePoint>)
    requires s != []
    ensures PutAll(u, rule, out, s) == PutAll(u, rule, Put(u, rule, out, s[0]), s[1..])
  {
  }

  lemma SyllableIsStandard(u: Ucd, rule: Rule, s: seq<CodePoint>)
    requires UcdOK(u) && |s| > 1 && IsL(s[0]) && IsV(s[1])
    ensures var p := FirstPiece(u, s); PutAll(u, rule, [], s) == PutAll(u, rule, p.head, s[p.used..])
    ensures var p := FirstPiece(u, s); |p.head| == 1 && StartsNothing(u, p.head[0], [], s[p.used..])
  {
    hide Put, PutAll;
    var p := FirstPiece(u, s);
    PutSyllable(u, rule, s);
    SyllablePiece(u, s);
    PutFirst(u, rule, s);
    PutAllStep(u, rule, [s[0]], s[1..]);
    assert s[1..][1..] == s[2..];
    if p.used == 3 {
      PutAllStep(u, rule, [SyllableLV(s[0], s[1])], s[2..]);
      assert s[2..][1..] == s[3..];
    }
  }

  // The text is in order, if the rule is that every character can block.
  ghost predicate FitsRule(u: Ucd, rule: Rule, s: seq<CodePoint>) {
    rule.Standard? ==> InOrder(u, s)
  }

  lemma SegmentIsStandard(u: Ucd, rule: Rule, s: seq<CodePoint>)
    requires UcdOK(u) && FitsRule(u, rule, s) && s != [] && !IsL(s[0]) && !IsSyllable(s[0])
    ensures var r := Absorb(u, Segment(s[0], [], s[1..]));
            PutAll(u, rule, [], s) == [r.starter] + r.skipped + PutAll(u, rule, [], r.rest)
  {
    hide Put, PutAll, Absorb;
    var g := Segment(s[0], [], s[1..]);
    var r := Absorb(u, g);
    PutFirst(u, rule, s);
    if u.ccc(s[0]) == 0 {
      AbsorbIsStandard(u, rule, g);
      assert [s[0]] + [] == [s[0]];
    } else {
      MarkStartsNothing(u, s[0], s[1..]);
      InertFirst(u, rule, s[0], s[1..]);
      InertAbsorbs(u, g);
      LeadingMarksStay(u, rule, r.skipped, r.rest);
      assert r.skipped + r.rest == [] + g.rest == s[1..];
    }
  }

  // A syllable directly before a trailing consonant.
  predicate IsBeforeConsonant(s: seq<CodePoint>, i: nat) {
    i + 1 < |s| && IsSyllable(s[i]) && IsT(s[i + 1])
  }

  ghost predicate HasSyllableBeforeConsonant(s: seq<CodePoint>) {
    exists i: nat :: IsBeforeConsonant(s, i)
  }

  lemma PieceIsStandard(u: Ucd, rule: Rule, s: seq<CodePoint>)
    requires UcdOK(u) && FitsRule(u, rule, s) && s != [] && !IsBeforeConsonant(s, 0)
    ensures var p := FirstPiece(u, s); PutAll(u, rule, [], s) == p.head + PutAll(u, rule, [], s[p.used..])
  {
    hide Put, PutAll, Absorb;
    var p := FirstPiece(u, s);
    if IsL(s[0]) && |s| > 1 && IsV(s[1]) {
      SyllableIsStandard(u, rule, s);
      InertFirst(u, rule, p.head[0], s[p.used..]);
      assert p.head == [p.head[0]];
    } else if IsL(s[0]) || IsSyllable(s[0]) || s[0] >= UNICODE_END {
      BeginsNoPair(u, s[0]);
      PutFirst(u, rule, s);
      InertFirst(u, rule, s[0], s[1..]);
    } else {
      SegmentIsStandard(u, rule, s);
      AbsorbLeavesSuffix(u, Segment(s[0], [], s[1..]));
      assert s[p.used..] == Absorb(u, Segment(s[0], [], s[1..])).rest;
    }
  }

  lemma ConsonantCompletes(a: CodePoint, b: CodePoint)
    requires IsLV(a) && IsT(b)
    ensures IsLVT(a + (b - HANGUL_TBASE))
  {
  }

  lemma PutConsonant(u: Ucd, rule: Rule, a: CodePoint, b: CodePoint)
    requires HangulOK(u) && IsLV(a) && IsT(b)
    ensures Put(u, rule, [a], b) == [a + (b - HANGUL_TBASE)]
  {
    LastStarterIs(u, [a], 0);
    assert !IsL(a);
    hide IsLV, IsT, IsL, IsV, LastStarter, HangulOK;
    var c: CodePoint := a + (b - HANGUL_TBASE);
    assert PrimaryComposite(u, a, b) == Some(c);
    assert [a][0 := c] == [c];
  }

  // What compose and the standard put first for a syllable before a consonant.
  lemma SyllableIsPut(u: Ucd, s: seq<CodePoint>)
    requires IsBeforeConsonant(s, 0)
    ensures Compose(u, s) != []
    ensures Compose(u, s)[0] == if IsLV(s[0]) then s[0] else s[0] + (s[1] - HANGUL_TBASE)
  {
    var p := FirstPiece(u, s);
    assert Compose(u, s)[0] == p.head[0];
  }

  // Before a consonant a syllable composes or stays by the standard, and the program does the other.
  lemma SyllableDiffers(u: Ucd, rule: Rule, s: seq<CodePoint>)
    requires UcdOK(u) && IsBeforeConsonant(s, 0)
    ensures Compose(u, s) != PutAll(u, rule, [], s)
  {
    hide Put, PutAll, Compose, UcdOK;
    SyllableIsPut(u, s);
    PutFirst(u, rule, s);
    BeginsNoPair(u, s[0]);
    if IsLV(s[0]) {
      var c := s[0] + (s[1] - HANGUL_TBASE);
      UcdGivesHangul(u);
      ConsonantCompletes(s[0], s[1]);
      PutConsonant(u, rule, s[0], s[1]);
      PutAllStep(u, rule, [s[0]], s[1..]);
      BeginsNoPair(u, c);
      InertFirst(u, rule, c, s[1..][1..]);
    } else {
      InertFirst(u, rule, s[0], s[1..]);
    }
  }

  lemma LaterBeforeConsonant(u: Ucd, s: seq<CodePoint>)
    requires UcdOK(u) && s != [] && !IsBeforeConsonant(s, 0)
    ensures HasSyllableBeforeConsonant(s) <==> HasSyllableBeforeConsonant(s[FirstPiece(u, s).used..])
  {
    hide FirstPiece, UcdOK, IsSyllable, IsT;
    var n := FirstPiece(u, s).used;
    if HasSyllableBeforeConsonant(s) {
      var i: nat :| IsBeforeConsonant(s, i);
      SyllableBeginsPiece(u, s, i);
      assert IsBeforeConsonant(s[n..], i - n);
    }
    if HasSyllableBeforeConsonant(s[n..]) {
      var i: nat :| IsBeforeConsonant(s[n..], i);
      assert IsBeforeConsonant(s, n + i);
    }
  }

  // On every text compose looks back as the standard algorithm does, with the last character alone
  // blocking, exactly when no syllable stands before a trailing consonant; and on text in order, for
  // one precomposed too, that is the standard algorithm itself.
  lemma {:induction false} ComposeIsStandardIff(u: Ucd, rule: Rule, s: seq<CodePoint>)
    requires UcdOK(u) && FitsRule(u, rule, s)
    ensures Compose(u, s) == PutAll(u, rule, [], s) <==> !HasSyllableBeforeConsonant(s)
    decreases |s|
  {
    hide FirstPiece, UcdOK, HasSyllableBeforeConsonant, IsBeforeConsonant;
    if s == [] {
      NothingBeforeConsonant();
    } else if IsBeforeConsonant(s, 0) {
      SyllableDiffers(u, rule, s);
      assert HasSyllableBeforeConsonant(s) by {
        BeforeConsonantAt(s, 0);
      }
    } else {
      var p := FirstPiece(u, s);
      ComposeIsStandardIff(u, rule, s[p.used..]);
      PieceIsStandard(u, rule, s);
      LaterBeforeConsonant(u, s);
      SameAfter(p.head, Compose(u, s[p.used..]), PutAll(u, rule, [], s[p.used..]));
    }
  }

  lemma NothingBeforeConsonant()
    ensures !HasSyllableBeforeConsonant([])
  {
  }

  lemma BeforeConsonantAt(s: seq<CodePoint>, i: nat)
    requires IsBeforeConsonant(s, i)
    ensures HasSyllableBeforeConsonant(s)
  {
  }

  lemma SameAfter(pre: seq<CodePoint>, a: seq<CodePoint>, b: seq<CodePoint>)
    ensures pre + a == pre + b <==> a == b
  {
    assert (pre + a)[|pre|..] == a && (pre + b)[|pre|..] == b;
  }

  // On canonically decomposed text compose is the standard's canonical composition algorithm.
  lemma ComposeIsStandard(u: Ucd, s: seq<CodePoint>)
    requires UcdOK(u) && IsNfd(u, s)
    ensures Compose(u, s) == PutAll(u, Standard, [], s)
  {
    ComposeIsStandardIff(u, Standard, s);
    forall i: nat ensures !IsBeforeConsonant(s, i) {
      if IsBeforeConsonant(s, i) {
        SyllableDecomposes(u, s[i]);
      }
    }
  }
}
