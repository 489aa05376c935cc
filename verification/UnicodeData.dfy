// Code points, the Hangul constants, and the three character properties that
// normalization consults, with the facts about them that the theorems rely on.
module UnicodeData {
  import opened Wrappers

  // char32_t
  type CodePoint = c: int | 0 <= c < 0x1_0000_0000

  // Unicode has no code points from here on; the tables are not consulted for them.
  const UNICODE_END := 0x11_0000

  const HANGUL_SBASE := 0xAC00
  const HANGUL_TBASE := 0x11A7
  const HANGUL_VBASE := 0x1161
  const HANGUL_LBASE := 0x1100
  const HANGUL_LCOUNT := 19
  const HANGUL_VCOUNT := 21
  const HANGUL_TCOUNT := 28
  const HANGUL_NCOUNT := HANGUL_VCOUNT * HANGUL_TCOUNT
  const HANGUL_SCOUNT := HANGUL_LCOUNT * HANGUL_VCOUNT * HANGUL_TCOUNT

  predicate IsSyllable(c: CodePoint) {
    HANGUL_SBASE <= c < HANGUL_SBASE + HANGUL_SCOUNT
  }

  // Syllables without and with a trailing consonant.
  predicate IsLV(c: CodePoint) {
    IsSyllable(c) && (c - HANGUL_SBASE) % HANGUL_TCOUNT == 0
  }

  predicate IsLVT(c: CodePoint) {
    IsSyllable(c) && (c - HANGUL_SBASE) % HANGUL_TCOUNT != 0
  }

  predicate IsL(c: CodePoint) {
    HANGUL_LBASE <= c < HANGUL_LBASE + HANGUL_LCOUNT
  }

  predicate IsV(c: CodePoint) {
    HANGUL_VBASE <= c < HANGUL_VBASE + HANGUL_VCOUNT
  }

  predicate IsT(c: CodePoint) {
    HANGUL_TBASE < c < HANGUL_TBASE + HANGUL_TCOUNT
  }

  predicate IsJamo(c: CodePoint) {
    IsL(c) || IsV(c) || IsT(c)
  }

  // Section 3.12 of the Unicode Standard, arithmetic decomposition.
  function HangulDecomposition(c: CodePoint): (d: seq<CodePoint>)
    requires IsSyllable(c)
  {
    var s := c - HANGUL_SBASE;
    var lv := [HANGUL_LBASE + s / HANGUL_NCOUNT, HANGUL_VBASE + s % HANGUL_NCOUNT / HANGUL_TCOUNT];
    if s % HANGUL_TCOUNT == 0 then lv else lv + [HANGUL_TBASE + s % HANGUL_TCOUNT]
  }

  // The properties of characters: combining class, full canonical decomposition, and the
  // code point that a first and a second character compose to.
  datatype Ucd = Ucd(
    ccc: CodePoint -> nat,
    decomposition: CodePoint -> seq<CodePoint>,
    pair: (CodePoint, CodePoint) -> Option<CodePoint>)

  // No adjacent pair whose combining classes are descending, starters excepted.
  ghost predicate InOrder(u: Ucd, s: seq<CodePoint>) {
    forall i, j | 0 <= i < j == i + 1 < |s| :: u.ccc(s[j]) == 0 || u.ccc(s[i]) <= u.ccc(s[j])
  }

  // No character of s has a decomposition other than itself.
  ghost predicate AllDecomposed(u: Ucd, s: seq<CodePoint>) {
    forall i | 0 <= i < |s| :: u.decomposition(s[i]) == [s[i]]
  }

  ghost predicate DecompositionsOK(u: Ucd) {
    forall c: CodePoint ::
      u.decomposition(c) != [] && AllDecomposed(u, u.decomposition(c)) && InOrder(u, u.decomposition(c))
  }

  // A pair (a, b) with composite c undoes the last step of c's decomposition.
  ghost predicate PairOK(u: Ucd, a: CodePoint, b: CodePoint, c: CodePoint) {
    && a < UNICODE_END && c < UNICODE_END
    && !IsSyllable(b) && !IsSyllable(c)
    && u.ccc(a) == 0 && u.ccc(c) == 0
    && u.decomposition(b) == [b]
    && u.decomposition(c) == u.decomposition(a) + [b]
  }

  ghost predicate PairsOK(u: Ucd) {
    forall a: CodePoint, b: CodePoint | u.pair(a, b).Some? :: PairOK(u, a, b, u.pair(a, b).value)
  }

  // Jamo and syllables are starters that begin no pair; only syllables decompose.
  ghost predicate HangulOK(u: Ucd) {
    && (forall c: CodePoint | IsJamo(c) || IsSyllable(c) :: u.ccc(c) == 0)
    && (forall c: CodePoint, b: CodePoint | IsJamo(c) || IsSyllable(c) :: u.pair(c, b).None?)
    && (forall c: CodePoint | IsJamo(c) :: u.decomposition(c) == [c])
    && (forall c: CodePoint | IsSyllable(c) :: u.decomposition(c) == HangulDecomposition(c))
  }

  ghost predicate UcdOK(u: Ucd) {
    DecompositionsOK(u) && PairsOK(u) && HangulOK(u)
  }

  // ---------- facts that only the results about precomposed text rely on ----------

  // As far as a consonant added to a syllable can reach.
  predicate IsAfterSyllables(c: CodePoint) {
    HANGUL_SBASE + HANGUL_SCOUNT <= c < HANGUL_SBASE + HANGUL_SCOUNT + HANGUL_TCOUNT - 1
  }

  // The characters after the syllables are starters that stand for themselves and are in no pair.
  ghost predicate AfterSyllablesOK(u: Ucd) {
    && (forall c: CodePoint | IsAfterSyllables(c) :: u.ccc(c) == 0 && u.decomposition(c) == [c])
    && (forall c: CodePoint, b: CodePoint | IsAfterSyllables(c) :: u.pair(c, b).None? && u.pair(b, c).None?)
  }

  // c decomposes into characters of its own class.
  ghost predicate KeepsClass(u: Ucd, c: CodePoint) {
    forall i | 0 <= i < |u.decomposition(c)| :: u.ccc(u.decomposition(c)[i]) == u.ccc(c)
  }

  ghost predicate MarksOK(u: Ucd) {
    forall c: CodePoint | u.ccc(c) > 0 :: KeepsClass(u, c)
  }
}
