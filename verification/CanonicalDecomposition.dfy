// Canonical decomposition of a text as a function, and its normal form:
// every character fully decomposed, then the marks put in canonical order.
module CanonicalDecomposition {
  import opened Sequences
  import opened UnicodeData
  import opened CanonicalOrder

  function Decompose(u: Ucd, s: seq<CodePoint>): seq<CodePoint> {
    if s == [] then [] else u.decomposition(s[0]) + Decompose(u, s[1..])
  }

  // What decompose_nfc leaves in its argument.
  function Nfd(u: Ucd, s: seq<CodePoint>): seq<CodePoint> {
    Sort(u, Decompose(u, s))
  }

  ghost predicate IsNfd(u: Ucd, s: seq<CodePoint>) {
    AllDecomposed(u, s) && InOrder(u, s)
  }

  lemma {:induction false} DecomposeConcat(u: Ucd, a: seq<CodePoint>, b: seq<CodePoint>)
    ensures Decompose(u, a + b) == Decompose(u, a) + Decompose(u, b)
  {
    if a == [] {
      assert [] + b == b;
    } else {
      DecomposeConcat(u, a[1..], b);
      assert (a + b)[1..] == a[1..] + b;
      ConcatAssociates(u.decomposition(a[0]), Decompose(u, a[1..]), Decompose(u, b));
    }
  }

  lemma DecomposeOne(u: Ucd, c: CodePoint)
    ensures Decompose(u, [c]) == u.decomposition(c)
  {
    assert [c][1..] == [];
    assert u.decomposition(c) + [] == u.decomposition(c);
  }

  lemma DecomposeSnoc(u: Ucd, s: seq<CodePoint>, n: nat)
    requires n < |s|
    ensures Decompose(u, s[..n + 1]) == Decompose(u, s[..n]) + u.decomposition(s[n])
    ensures Decompose(u, s[n..]) == u.decomposition(s[n]) + Decompose(u, s[n + 1..])
  {
    assert s[..n + 1] == s[..n] + [s[n]] && s[n..] == [s[n]] + s[n + 1..];
    DecomposeConcat(u, s[..n], [s[n]]);
    DecomposeConcat(u, [s[n]], s[n + 1..]);
    DecomposeOne(u, s[n]);
  }

  lemma {:induction false} DecomposeGrows(u: Ucd, s: seq<CodePoint>)
    requires forall c: CodePoint :: u.decomposition(c) != []
    ensures |Decompose(u, s)| >= |s|
  {
    if s == [] {
    } else {
      DecomposeGrows(u, s[1..]);
    }
  }

  lemma {:induction false} DecomposeOfDecomposed(u: Ucd, s: seq<CodePoint>)
    requires AllDecomposed(u, s)
    ensures Decompose(u, s) == s
  {
    if s == [] {
    } else {
      DecomposeOfDecomposed(u, s[1..]);
      assert s == [s[0]] + s[1..];
    }
  }

  lemma {:induction false} DecomposeIsDecomposed(u: Ucd, s: seq<CodePoint>)
    requires DecompositionsOK(u)
    ensures AllDecomposed(u, Decompose(u, s))
  {
    if s == [] {
    } else {
      DecomposeIsDecomposed(u, s[1..]);
      assert AllDecomposed(u, u.decomposition(s[0]));
    }
  }

  lemma SortKeepsDecomposed(u: Ucd, s: seq<CodePoint>)
    requires AllDecomposed(u, s)
    ensures AllDecomposed(u, Sort(u, s))
  {
    SortIsPermutation(u, s);
    forall i | 0 <= i < |Sort(u, s)| ensures u.decomposition(Sort(u, s)[i]) == [Sort(u, s)[i]] {
      assert Sort(u, s)[i] in multiset(s);
    }
  }

  // Every text has a normal form, and a text is its own normal form exactly when it is decomposed and ordered.
  lemma NfdIsNfd(u: Ucd, s: seq<CodePoint>)
    requires DecompositionsOK(u)
    ensures IsNfd(u, Nfd(u, s))
    ensures IsNfd(u, s) <==> Nfd(u, s) == s
  {
    DecomposeIsDecomposed(u, s);
    SortKeepsDecomposed(u, Decompose(u, s));
    SortIsInOrder(u, Decompose(u, s));
    if IsNfd(u, s) {
      DecomposeOfDecomposed(u, s);
      SortOfOrdered(u, s);
    }
  }

  // The syllables and the jamo by their code points, and what the syllables decompose into.
  lemma SyllablesAre(l: nat, v: nat, tr: nat)
    requires l < 19 && v < 21 && tr < 28
    ensures var c := 0xAC00 + (l * 21 + v) * 28 + tr;
            && IsSyllable(c)
            && HangulDecomposition(c) == [0x1100 + l, 0x1161 + v] + (if tr == 0 then [] else [0x11A7 + tr])
    ensures IsL(0x1100 + l) && IsV(0x1161 + v) && (tr > 0 ==> IsT(0x11A7 + tr))
  {
  }

  lemma HangulRanges(c: CodePoint)
    ensures IsSyllable(c) <==> 0xAC00 <= c <= 0xD7A3
    ensures IsL(c) <==> 0x1100 <= c <= 0x1112
    ensures IsV(c) <==> 0x1161 <= c <= 0x1175
    ensures IsT(c) <==> 0x11A8 <= c <= 0x11C2
  {
  }

  // Composing L, V and T by arithmetic is undone by the arithmetic decomposition.
  lemma HangulRoundTrip(l: CodePoint, v: CodePoint, tr: nat)
    requires IsL(l) && IsV(v) && tr < HANGUL_TCOUNT
    ensures var c := HANGUL_SBASE + ((l - HANGUL_LBASE) * HANGUL_VCOUNT + (v - HANGUL_VBASE)) * HANGUL_TCOUNT + tr;
            && IsSyllable(c)
            && HangulDecomposition(c) == [l, v] + (if tr == 0 then [] else [HANGUL_TBASE + tr])
  {
  }
}
