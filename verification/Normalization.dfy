// The theorems about the whole pipeline: decompose, order, compose.
module Normalization {
  import opened Wrappers
  import opened UnicodeData
  import opened UnicodeTables
  import opened CanonicalOrder
  import opened CanonicalDecomposition
  import opened CanonicalComposition
  import opened CanonicalEquivalence
  import opened ComposedForm

  // What normalize leaves in its argument.
  function Nfc(u: Ucd, s: seq<CodePoint>): seq<CodePoint> {
    Compose(u, Nfd(u, s))
  }

  // Normalizing does not change the decomposed form.
  lemma NfcKeepsNfd(u: Ucd, s: seq<CodePoint>)
    requires UcdOK(u)
    ensures Nfd(u, Nfc(u, s)) == Nfd(u, s)
  {
    hide Nfd, Compose;
    NfdIsNfd(u, s);
    ComposeThenDecompose(u, Nfd(u, s));
  }

  lemma NfcIsIdempotent(u: Ucd, s: seq<CodePoint>)
    requires UcdOK(u)
    ensures Nfc(u, Nfc(u, s)) == Nfc(u, s)
  {
    hide Nfd, Compose;
    NfcKeepsNfd(u, s);
  }

  // normalize decides canonical equivalence.
  lemma NfcDecidesEquivalence(u: Ucd, s: seq<CodePoint>, r: seq<CodePoint>)
    requires UcdOK(u)
    ensures Nfc(u, s) == Nfc(u, r) <==> AreEquivalent(u, s, r)
    ensures Nfc(u, s) == Nfc(u, r) <==> Nfd(u, s) == Nfd(u, r)
    ensures AreEquivalent(u, s, Nfc(u, s))
  {
    hide Nfd, Compose, AreEquivalent;
    NfcKeepsNfd(u, s);
    NfcKeepsNfd(u, r);
    NfdDecidesEquivalence(u, s, r);
    NfdDecidesEquivalence(u, s, Nfc(u, s));
  }

  lemma NfcIsMaximal(u: Ucd, s: seq<CodePoint>)
    requires UcdOK(u)
    ensures IsMaximal(u, Nfc(u, s))
  {
    hide Nfd, Compose, IsMaximal;
    NfdIsNfd(u, s);
    ComposeIsMaximal(u, Nfd(u, s));
  }

  // A text that composition changes in meaning: a syllable that already has a trailing consonant
  // is merged with a following one.
  lemma ComposeNeedsDecomposedText(u: Ucd)
    requires UcdOK(u)
    ensures var s: seq<CodePoint> := [HANGUL_SBASE + 1, HANGUL_TBASE + 1];
            HasMerge(s) && Compose(u, s) == [HANGUL_SBASE + 2] && !AreEquivalent(u, s, Compose(u, s))
  {
    var s: seq<CodePoint> := [HANGUL_SBASE + 1, HANGUL_TBASE + 1];
    var c: CodePoint := HANGUL_SBASE + 2;
    assert IsMerge(s, 0);
    assert Compose(u, s) == [c] by {
      assert FirstPiece(u, s) == Piece([c], 2);
      assert s[2..] == [];
    }
    DecomposeOne(u, c);
    assert s == [s[0]] + [s[1]];
    DecomposeConcat(u, [s[0]], [s[1]]);
    DecomposeOne(u, s[0]);
    DecomposeOne(u, s[1]);
    assert |HangulDecomposition(c)| == 3 && |HangulDecomposition(s[0])| == 3;
    assert |Nfd(u, s)| == 4 && |Nfd(u, [c])| == 3;
    NfdDecidesEquivalence(u, s, [c]);
  }

  // ---------- the assumption on the tables can be met ----------

  // A grave accent that composes with A, an overline of the same class, and marks below that come
  // before both in the order.
  function Sample(): Ucd {
    Ucd(
      c => if c == 0x300 || c == 0x305 then 230 else if c == 0x324 then 220 else 0,
      c => if IsSyllable(c) then HangulDecomposition(c) else if c == 0xC0 then [0x41, 0x300] else [c],
      (a, b) => if a == 0x41 && b == 0x300 then Some(0xC0) else None)
  }

  lemma SampleIsOK()
    ensures UcdOK(Sample()) && AfterSyllablesOK(Sample()) && MarksOK(Sample())
  {
    hide DecompositionsOK, PairsOK, HangulOK;
    SampleDecompositions();
    SamplePairs();
    SampleHangul();
  }

  // Out of order, the class of the last mark passed over does not tell what is blocked: the grave
  // accent is composed past an overline that should block it.
  lemma OutOfOrderSample()
    ensures var u := Sample();
            var s: seq<CodePoint> := [0x41, 0x305, 0x324, 0x300];
            !HasMerge(s) && Compose(u, s) == [0xC0, 0x305, 0x324] && !AreEquivalent(u, s, Compose(u, s))
  {
    hide Sample, Compose, Decompose, Sort, Project, HasMerge, AreEquivalent;
    hide DecompositionsOK, PairsOK, HangulOK, MarksOK, AfterSyllablesOK;
    var u := Sample();
    var s: seq<CodePoint> := [0x41, 0x305, 0x324, 0x300];
    var y: seq<CodePoint> := [0xC0, 0x305, 0x324];
    OutOfOrderComposes();
    SampleIsOK();
    NfdDecidesEquivalence(u, s, y);
    SortDecidesReordering(u, Decompose(u, s), Decompose(u, y));
    OutOfOrderProjects();
    assert Project(u, Decompose(u, s), 230) != Project(u, Decompose(u, y), 230);
  }

  lemma OutOfOrderProjects()
    ensures var u := Sample();
      && Project(u, Decompose(u, [0x41, 0x305, 0x324, 0x300]), 230) == [0x41, 0x305, 0x300]
      && Project(u, Decompose(u, [0xC0, 0x305, 0x324]), 230) == [0x41, 0x300, 0x305]
  {
    hide Project, Decompose, HangulDecomposition;
    var u := Sample();
    var s: seq<CodePoint> := [0x41, 0x305, 0x324, 0x300];
    DecomposeOfDecomposed(u, s);
    DecomposeConcat(u, [0xC0], [0x305, 0x324]);
    DecomposeOne(u, 0xC0);
    DecomposeOfDecomposed(u, [0x305, 0x324]);
    var d: seq<CodePoint> := [0x41, 0x300, 0x305, 0x324];
    assert [0xC0] + [0x305, 0x324] == [0xC0, 0x305, 0x324];
    assert Decompose(u, [0xC0, 0x305, 0x324]) == d;
    ProjectThree(u, s);
    ProjectThree(u, d);
  }

  lemma ProjectThree(u: Ucd, s: seq<CodePoint>)
    requires |s| == 4 && u.ccc(s[0]) == 0
    ensures Project(u, s, 230) ==
            [s[0]] + (if u.ccc(s[1]) in {0, 230} then [s[1]] else [])
            + (if u.ccc(s[2]) in {0, 230} then [s[2]] else []) + (if u.ccc(s[3]) in {0, 230} then [s[3]] else [])
  {
    assert s[..3][..2] == s[..2] && s[..2][..1] == s[..1] && s[..1][..0] == [];
    assert Project(u, s[..1], 230) == [s[0]];
    assert Project(u, s[..2], 230) == [s[0]] + (if u.ccc(s[1]) in {0, 230} then [s[1]] else []);
    assert Project(u, s[..3], 230) == Project(u, s[..2], 230) + (if u.ccc(s[2]) in {0, 230} then [s[2]] else []);
  }

  lemma OutOfOrderComposes()
    ensures !HasMerge([0x41, 0x305, 0x324, 0x300])
    ensures Compose(Sample(), [0x41, 0x305, 0x324, 0x300]) == [0xC0, 0x305, 0x324]
  {
    var u := Sample();
    var s: seq<CodePoint> := [0x41, 0x305, 0x324, 0x300];
    assert s[1..] == [0x305, 0x324, 0x300] && s[1..][1..] == [0x324, 0x300] && s[1..][1..][1..] == [0x300];
    assert Absorb(u, Segment(0x41, [0x305, 0x324], [0x300])) == Segment(0xC0, [0x305, 0x324], []) by {
      assert [0x300][1..] == [];
    }
    assert Absorb(u, Segment(0x41, [0x305], [0x324, 0x300])) == Segment(0xC0, [0x305, 0x324], []) by {
      assert [0x324, 0x300][1..] == [0x300] && [0x305] + [0x324] == [0x305, 0x324];
    }
    assert Absorb(u, Segment(0x41, [], s[1..])) == Segment(0xC0, [0x305, 0x324], []) by {
      assert [] + [s[1]] == [0x305] && s[1..][0] == s[1];
    }
    assert FirstPiece(u, s) == Piece([0xC0, 0x305, 0x324], 4);
    assert s[4..] == [];
  }

  // Nothing combines, and nothing but syllables decomposes or composes.
  ghost predicate IsPlain(u: Ucd) {
    && (forall c: CodePoint :: u.ccc(c) == 0)
    && (forall c: CodePoint :: u.decomposition(c) == if IsSyllable(c) then HangulDecomposition(c) else [c])
    && (forall a: CodePoint, b: CodePoint :: u.pair(a, b).None?)
  }

  lemma PlainIsOK(u: Ucd)
    requires IsPlain(u)
    ensures UcdOK(u) && AfterSyllablesOK(u)
  {
    hide HangulDecomposition;
    forall c: CodePoint
      ensures u.decomposition(c) != [] && AllDecomposed(u, u.decomposition(c)) && InOrder(u, u.decomposition(c))
    {
      if IsSyllable(c) {
        SyllableIsJamo(c);
      }
    }
  }

  lemma EmptyTablesAreOK()
    ensures TableOK(EmptyTables())
  {
    var u := Properties(EmptyTables());
    assert IsPlain(u) by {
      hide HangulDecomposition;
    }
    hide UcdOK, AfterSyllablesOK;
    PlainIsOK(u);
  }

  lemma SampleDecompositions()
    ensures DecompositionsOK(Sample())
  {
    hide HangulDecomposition;
    var u := Sample();
    forall c: CodePoint
      ensures u.decomposition(c) != [] && AllDecomposed(u, u.decomposition(c)) && InOrder(u, u.decomposition(c))
    {
      if IsSyllable(c) {
        SyllableIsJamo(c);
      }
    }
  }

  lemma SamplePairs()
    ensures PairsOK(Sample())
  {
    hide HangulDecomposition;
  }

  lemma SampleHangul()
    ensures HangulOK(Sample())
  {
    hide HangulDecomposition;
  }

  lemma SyllableIsJamo(c: CodePoint)
    requires IsSyllable(c)
    ensures HangulDecomposition(c) != []
    ensures forall i | 0 <= i < |HangulDecomposition(c)| :: IsJamo(HangulDecomposition(c)[i])
  {
  }
}
