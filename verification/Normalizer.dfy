// The normalization routines as the program runs them: each one rewrites a single
// text buffer in place, reading the two-level tables directly.
module Normalizer {
  import opened Wrappers
  import opened Sequences
  import opened UnicodeData
  import opened UnicodeTables
  import opened CanonicalOrder
  import opened CanonicalDecomposition
  import opened CanonicalComposition
  import opened CanonicalEquivalence
  import opened ComposedForm
  import opened Normalization

  // std::u32string
  class Text {
    var chars: seq<CodePoint>

    constructor (chars: seq<CodePoint>)
      ensures this.chars == chars
    {
      this.chars := chars;
    }
  }

  predicate HasDecomposition(t: Tables, c: CodePoint) {
    IsSyllable(c) || (c < UNICODE_END && Slice(t, c) != [])
  }

  // The length of the decomposition of c; zero when c stands for itself.
  method DecompositionLength(t: Tables, c: CodePoint) returns (length: nat)
    ensures length != 0 <==> HasDecomposition(t, c)
    ensures length != 0 ==> length == |Decomposition(t, c)|
    ensures length == 0 ==> Decomposition(t, c) == [c]
  {
    length := 0;
    if HANGUL_SBASE <= c < HANGUL_SBASE + HANGUL_SCOUNT {
      length := 2;
      if (c - HANGUL_SBASE) % HANGUL_TCOUNT != 0 {
        length := 3;
      }
    } else if c < UNICODE_END {
      var row := t.decompositionBlock[t.decompositionIndex[c / 256]];
      length := row[c % 256 + 1] / 4 - row[c % 256] / 4;
      if length > 0 && row[c % 256] % 2 == 1 {
        length := 0;
      }
    }
  }

  // Whether anything decomposes, and by how much the text will grow.
  method ComputeDecompositionLength(t: Tables, input: seq<CodePoint>) returns (needed: bool, additional: nat)
    ensures needed <==> exists i :: 0 <= i < |input| && HasDecomposition(t, input[i])
    ensures |input| + additional == |Decompose(Properties(t), input)|
    ensures !needed ==> Decompose(Properties(t), input) == input
  {
    hide HasDecomposition, Decomposition;
    needed, additional := false, 0;
    for i := 0 to |input|
      invariant needed <==> exists k :: 0 <= k < i && HasDecomposition(t, input[k])
      invariant i + additional == |Decompose(Properties(t), input[..i])|
      invariant !needed ==> AllDecomposed(Properties(t), input[..i])
    {
      var length := DecompositionLength(t, input[i]);
      DecomposeSnoc(Properties(t), input, i);
      if length != 0 {
        needed := true;
        additional := additional + (length - 1);
      }
    }
    assert input[..|input|] == input;
    if !needed {
      DecomposeOfDecomposed(Properties(t), input);
    }
  }

  // The arithmetic decomposition of the syllable c, written backwards from descending.
  method WriteHangul(input: Text, start: nat, c: CodePoint) returns (descending: nat)
    requires IsSyllable(c) && |HangulDecomposition(c)| <= start <= |input.chars|
    modifies input
    ensures descending == start - |HangulDecomposition(c)|
    ensures input.chars == old(input.chars)[..descending] + HangulDecomposition(c) + old(input.chars)[start..]
  {
    descending := start;
    var sIndex := c - HANGUL_SBASE;
    if sIndex % HANGUL_TCOUNT != 0 {
      descending := descending - 1;
      input.chars := input.chars[descending := HANGUL_TBASE + sIndex % HANGUL_TCOUNT];
    }
    descending := descending - 1;
    input.chars := input.chars[descending := HANGUL_VBASE + sIndex % HANGUL_NCOUNT / HANGUL_TCOUNT];
    descending := descending - 1;
    input.chars := input.chars[descending := HANGUL_LBASE + sIndex / HANGUL_NCOUNT];
  }

  // A slice of the decomposition data, written backwards from descending.
  method WriteSlice(input: Text, start: nat, data: seq<CodePoint>, first: nat, count: nat) returns (descending: nat)
    requires first + count <= |data| && count <= start <= |input.chars|
    modifies input
    ensures descending == start - count
    ensures input.chars == old(input.chars)[..descending] + data[first..first + count] + old(input.chars)[start..]
  {
    ghost var s := input.chars;
    descending := start;
    var length := count;
    while length > 0
      invariant 0 <= length <= count && descending == start - (count - length)
      invariant input.chars == s[..descending] + data[first + length..first + count] + s[start..]
    {
      length := length - 1;
      descending := descending - 1;
      input.chars := input.chars[descending := data[first + length]];
    }
  }

  // The decomposition of c, read from the tables and written backwards from descending.
  method WriteDecomposition(t: Tables, input: Text, start: nat, c: CodePoint) returns (descending: nat)
    requires |Decomposition(t, c)| <= start <= |input.chars|
    modifies input
    ensures descending == start - |Decomposition(t, c)|
    ensures input.chars == old(input.chars)[..descending] + Decomposition(t, c) + old(input.chars)[start..]
  {
    if HANGUL_SBASE <= c < HANGUL_SBASE + HANGUL_SCOUNT {
      descending := WriteHangul(input, start, c);
    } else if c < UNICODE_END {
      var row := t.decompositionBlock[t.decompositionIndex[c / 256]];
      var length := row[c % 256 + 1] / 4 - row[c % 256] / 4;
      if length > 0 && row[c % 256] % 2 == 1 {
        length := 0;
      }
      if length > 0 {
        descending := WriteSlice(input, start, t.decompositionData, row[c % 256] / 4, length);
      } else {
        descending := start - 1;
        input.chars := input.chars[descending := c];
      }
    } else {
      descending := start - 1;
      input.chars := input.chars[descending := c];
    }
  }

  // The state of the backwards fill of s: the first count characters are still to be read, and
  // the buffer from descending on holds the decomposition of the others.
  ghost predicate Filled(u: Ucd, s: seq<CodePoint>, chars: seq<CodePoint>, count: nat, descending: nat) {
    && count <= |s| && count <= descending <= |chars|
    && descending == |Decompose(u, s[..count])|
    && chars[..count] == s[..count]
    && chars[descending..] == Decompose(u, s[count..])
  }

  lemma FillHasRoom(u: Ucd, s: seq<CodePoint>, chars: seq<CodePoint>, count: nat, descending: nat)
    requires Filled(u, s, chars, count, descending) && count > 0
    requires forall c: CodePoint :: u.decomposition(c) != []
    ensures count <= |s| && count <= descending <= |chars| && chars[count - 1] == s[count - 1]
    ensures count - 1 <= descending - |u.decomposition(s[count - 1])|
  {
    assert chars[count - 1] == chars[..count][count - 1];
    DecomposeSnoc(u, s, count - 1);
    DecomposeGrows(u, s[..count - 1]);
  }

  lemma SliceAfter<T>(s: seq<T>, n: nat, a: seq<T>, b: seq<T>)
    requires n <= |s|
    ensures (s[..n] + a + b)[n..] == a + b
  {
  }

  lemma FillStep(
    u: Ucd, s: seq<CodePoint>, before: seq<CodePoint>, after: seq<CodePoint>, count: nat, descending: nat)
    requires Filled(u, s, before, count, descending) && count > 0
    requires var next := descending - |u.decomposition(s[count - 1])|;
             count - 1 <= next && after == before[..next] + u.decomposition(s[count - 1]) + before[descending..]
    ensures Filled(u, s, after, count - 1, descending - |u.decomposition(s[count - 1])|)
  {
    hide Decompose;
    DecomposeSnoc(u, s, count - 1);
    var d, rest := u.decomposition(s[count - 1]), before[descending..];
    var next := descending - |d|;
    assert after[..count - 1] == before[..count][..count - 1] == s[..count - 1];
    SliceAfter(before, next, d, rest);
  }

  lemma FillStarts(u: Ucd, s: seq<CodePoint>, chars: seq<CodePoint>)
    requires |s| <= |chars| == |Decompose(u, s)| && chars[..|s|] == s
    ensures Filled(u, s, chars, |s|, |chars|)
  {
    assert s[..|s|] == s && s[|s|..] == [];
  }

  lemma FillEnds(u: Ucd, s: seq<CodePoint>, chars: seq<CodePoint>, descending: nat)
    requires Filled(u, s, chars, 0, descending)
    ensures chars == Decompose(u, s)
  {
    assert s[..0] == [] && s[0..] == s;
  }

  // Grows the buffer, then fills it from the back while still reading the front.
  method DecomposeInPlace(t: Tables, input: Text, additional: nat)
    requires |input.chars| + additional == |Decompose(Properties(t), input.chars)|
    modifies input
    ensures input.chars == Decompose(Properties(t), old(input.chars))
  {
    hide Decomposition, Decompose, Filled;
    ghost var u, s := Properties(t), input.chars;
    input.chars := input.chars + seq(additional, _ => 0);
    var descending: nat := |input.chars|;
    var count: nat := descending - additional;
    FillStarts(u, s, input.chars);
    while count != 0
      invariant Filled(u, s, input.chars, count, descending)
    {
      FillHasRoom(u, s, input.chars, count, descending);
      ghost var before, from := input.chars, descending;
      count := count - 1;
      descending := WriteDecomposition(t, input, descending, input.chars[count]);
      FillStep(u, s, before, input.chars, count + 1, from);
    }
    FillEnds(u, s, input.chars, descending);
  }

  // s with the elements from back up to idx moved one place right, and hole where they began.
  function Shifted<T>(s: seq<T>, back: nat, idx: nat, hole: T): (r: seq<T>)
    requires back <= idx < |s|
    ensures |r| == |s|
    ensures r[back := hole] == r
    ensures back > 0 ==> r[back - 1] == s[back - 1]
  {
    s[..back] + [hole] + s[back..idx] + s[idx + 1..]
  }

  lemma ShiftStep<T>(s: seq<T>, back: nat, idx: nat, hole: T, other: T)
    requires back <= idx < |s|
    ensures Shifted(s, back, idx, hole)[back := other] == Shifted(s, back, idx, other)
    ensures back > 0 ==> Shifted(s, back, idx, s[back - 1]) == Shifted(s, back - 1, idx, s[back - 1])
  {
  }

  lemma InsertPast(u: Ucd, s: seq<CodePoint>, back: nat, idx: nat, c: CodePoint)
    requires 0 < back <= idx <= |s| && 0 < u.ccc(c) < u.ccc(s[back - 1])
    ensures Insert(u, s[..back], c) + s[back..idx] == Insert(u, s[..back - 1], c) + s[back - 1..idx]
  {
    assert s[..back][..back - 1] == s[..back - 1];
    assert s[back - 1..idx] == [s[back - 1]] + s[back..idx];
  }

  // Moves the mark at idx back past every mark of higher class before it.
  method InsertMark(t: Tables, input: Text, idx: nat)
    requires idx < |input.chars| && Ccc(t, input.chars[idx]) != 0
    modifies input
    ensures var s := old(input.chars);
            input.chars == Insert(Properties(t), s[..idx], s[idx]) + s[idx + 1..]
  {
    ghost var u, s := Properties(t), input.chars;
    var ccc := Ccc(t, input.chars[idx]);
    var current := input.chars[idx];
    var back := idx;
    ghost var hole := current;
    assert s[idx..idx] == [];
    while back != 0 && Ccc(t, input.chars[back - 1]) > ccc
      invariant 0 <= back <= idx
      invariant input.chars == Shifted(s, back, idx, hole)
      invariant Insert(u, s[..idx], current) == Insert(u, s[..back], current) + s[back..idx]
    {
      ShiftStep(s, back, idx, hole, s[back - 1]);
      InsertPast(u, s, back, idx, current);
      input.chars := input.chars[back := input.chars[back - 1]];
      back := back - 1;
      hole := s[back];
    }
    ShiftStep(s, back, idx, hole, current);
    input.chars := input.chars[back := current];
  }

  // What inserting the character at idx does to a buffer that is sorted before idx.
  lemma SortNext(u: Ucd, s: seq<CodePoint>, chars: seq<CodePoint>, idx: nat)
    requires idx < |s| && chars == Sort(u, s[..idx]) + s[idx..]
    ensures chars[idx] == s[idx]
    ensures Insert(u, chars[..idx], chars[idx]) + chars[idx + 1..] == Sort(u, s[..idx + 1]) + s[idx + 1..]
    ensures u.ccc(s[idx]) == 0 ==> chars == Sort(u, s[..idx + 1]) + s[idx + 1..]
  {
    assert s[..idx + 1] == s[..idx] + [s[idx]] && s[idx..] == [s[idx]] + s[idx + 1..];
    SortSnoc(u, s[..idx], s[idx]);
    hide Sort;
    assert chars[..idx] == Sort(u, s[..idx]) && chars[idx + 1..] == s[idx + 1..];
    ConcatAssociates(Sort(u, s[..idx]), [s[idx]], s[idx + 1..]);
  }

  // Insertion sort of the marks by combining class, starters acting as barriers.
  method SortMarks(t: Tables, input: Text)
    modifies input
    ensures input.chars == Sort(Properties(t), old(input.chars))
  {
    hide Sort, Insert;
    ghost var u, s := Properties(t), input.chars;
    SortFirst(u, s);
    var idx := 1;
    while idx < |input.chars|
      invariant 1 <= idx && |input.chars| == |s|
      invariant idx <= |s| ==> input.chars == Sort(u, s[..idx]) + s[idx..]
      invariant idx > |s| ==> s == []
    {
      var ccc := Ccc(t, input.chars[idx]);
      SortNext(u, s, input.chars, idx);
      if ccc != 0 {
        InsertMark(t, input, idx);
      }
      idx := idx + 1;
    }
    assert s != [] ==> s[..idx] == s;
  }

  lemma SortFirst(u: Ucd, s: seq<CodePoint>)
    ensures s != [] ==> Sort(u, s[..1]) + s[1..] == s
    ensures Sort(u, []) == []
  {
    if s != [] {
      assert [s[0]][..0] == [] && s[..1] == [s[0]];
    }
  }

  method DecomposeNfc(t: Tables, input: Text)
    modifies input
    ensures input.chars == Nfd(Properties(t), old(input.chars))
  {
    var needed, additional := ComputeDecompositionLength(t, input.chars);
    if needed {
      DecomposeInPlace(t, input, additional);
    }
    SortMarks(t, input);
  }

  // ---------- composition ----------

  lemma KeysFrom(lo: nat, k: int)
    ensures IsKey(lo, lo) && (IsKey(lo + 2, k) ==> IsKey(lo, k))
    ensures IsKey(lo, k) && lo < k ==> IsKey(lo + 2, k)
  {
  }

  lemma SortedAfterFirst(data: seq<CodePoint>, lo: nat, hi: nat, k: nat)
    requires lo < k < hi <= |data| && IsKey(lo, hi) && IsKey(lo, k) && SortedKeys(data, lo, hi)
    ensures IsKey(lo + 2, hi) && IsKey(lo + 2, k) && lo + 2 <= hi && SortedKeys(data, lo + 2, hi)
    ensures data[lo] < data[k]
  {
    KeysFrom(lo, hi);
    KeysFrom(lo, k);
    assert lo + 2 <= hi;
    hide IsKey;
    forall i, j | IsKey(lo + 2, i) && IsKey(lo + 2, j) && i < j < hi ensures data[i] < data[j] {
      KeysFrom(lo, i);
      KeysFrom(lo, j);
    }
  }

  lemma {:induction false} FindPairAt(data: seq<CodePoint>, lo: nat, hi: nat, k: nat)
    requires lo <= hi <= |data| && IsKey(lo, hi) && IsKey(lo, k) && k < hi && SortedKeys(data, lo, hi)
    ensures FindPair(data, lo, hi, data[k]) == Some(data[k + 1])
    decreases hi - lo
  {
    hide SortedKeys;
    if lo < k {
      SortedAfterFirst(data, lo, hi, k);
      FindPairAt(data, lo + 2, hi, k);
    }
  }

  lemma {:induction false} FindPairNone(data: seq<CodePoint>, lo: nat, hi: nat, b: CodePoint)
    requires lo <= hi <= |data| && IsKey(lo, hi)
    requires forall k | IsKey(lo, k) && k < hi :: data[k] != b
    ensures FindPair(data, lo, hi, b) == None
    decreases hi - lo
  {
    if lo < hi {
      KeysFrom(lo, hi);
      assert lo + 2 <= hi;
      forall k | IsKey(lo + 2, k) && k < hi ensures data[k] != b {
        KeysFrom(lo, k);
      }
      FindPairNone(data, lo + 2, hi, b);
    }
  }

  // The state of the search: either the key is at left, or it can only be at left or between.
  ghost predicate Searching(data: seq<CodePoint>, first: nat, last: nat, left: nat, right: nat, key: CodePoint)
    requires last <= |data|
  {
    && IsKey(first, left) && IsKey(first, right) && left <= right <= last && left < last
    && (left == right ==> data[left] == key)
    && (left < right ==> (left == first || data[left] < key) && (right == last || key < data[right]))
  }

  lemma SearchDone(data: seq<CodePoint>, first: nat, last: nat, left: nat, right: nat, key: CodePoint)
    requires first < last <= |data| && IsKey(first, last) && SortedKeys(data, first, last)
    requires Searching(data, first, last, left, right, key) && right <= left + 2
    ensures IsKey(first, left) && left + 1 < last
    ensures FindPair(data, first, last, key) == if data[left] == key then Some(data[left + 1]) else None
  {
    if data[left] == key {
      FindPairAt(data, first, last, left);
    } else {
      forall k | IsKey(first, k) && k < last ensures data[k] != key {
        if k < left {
          assert data[k] < data[left];
        } else if k > right {
          assert data[right] < data[k];
        }
      }
      FindPairNone(data, first, last, key);
    }
  }

  // The midpoint, rounded down to a whole number of pairs.
  function Middle(left: nat, right: nat): (m: nat)
    requires left + 2 < right
    ensures left <= m < right
    ensures IsKey(left, right) ==> left < m && IsKey(left, m)
  {
    var half := (right - left) / 2;
    left + (half - half % 2)
  }

  lemma KeysApart(first: nat, a: nat, b: nat)
    requires IsKey(first, a) && a <= b
    ensures IsKey(a, b) <==> IsKey(first, b)
  {
  }

  lemma SearchStarts(data: seq<CodePoint>, first: nat, last: nat, key: CodePoint)
    requires first < last <= |data| && IsKey(first, last)
    ensures Searching(data, first, last, first, last, key)
  {
  }

  // A look at the middle, which moves one end of the search, or both when it is the key.
  lemma SearchStep(data: seq<CodePoint>, first: nat, last: nat, left: nat, right: nat, key: CodePoint)
    requires last <= |data| && Searching(data, first, last, left, right, key) && left + 2 < right
    ensures var middle := Middle(left, right);
      && left < middle < right && middle < |data|
      && Searching(
        data, first, last, if data[middle] <= key then middle else left,
        if data[middle] >= key then middle else right, key)
  {
    hide Middle, IsKey;
    KeysApart(first, left, right);
    KeysApart(first, left, Middle(left, right));
  }

  // Binary search over the keys at every second offset of a non-empty range.
  method FindComposition(data: seq<CodePoint>, first: nat, last: nat, key: CodePoint) returns (left: nat)
    requires first < last <= |data| && IsKey(first, last) && SortedKeys(data, first, last)
    ensures IsKey(first, left) && left + 1 < last
    ensures FindPair(data, first, last, key) == if data[left] == key then Some(data[left + 1]) else None
  {
    hide Searching, Middle, SortedKeys;
    left := first;
    var right := last;
    SearchStarts(data, first, last, key);
    while left + 2 < right
      invariant Searching(data, first, last, left, right, key)
    {
      SearchStep(data, first, last, left, right, key);
      var middle := Middle(left, right);
      var found := data[middle];
      if found <= key {
        left := middle;
      }
      if found >= key {
        right := middle;
      }
    }
    SearchDone(data, first, last, left, right, key);
  }

  // Within a segment of s: the starter is at start, the skipped marks follow it up to written,
  // and everything before start and after read is still as it was.
  ghost predicate Absorbing(
    s: seq<CodePoint>, chars: seq<CodePoint>, read: nat, written: nat, start: nat, g: Segment)
  {
    && start <= written <= read < |s| == |chars|
    && chars[..start] == s[..start]
    && chars[start] == g.starter
    && chars[start + 1..written + 1] == g.skipped
    && chars[read + 1..] == s[read + 1..] == g.rest
  }

  lemma AbsorbingReads(s: seq<CodePoint>, chars: seq<CodePoint>, read: nat, written: nat, start: nat, g: Segment)
    requires Absorbing(s, chars, read, written, start, g)
    ensures written <= read < |s| == |chars| && |g.rest| == |chars| - (read + 1)
    ensures g.rest != [] ==> g.rest[0] == chars[read + 1]
  {
  }

  lemma AbsorbingComposes(
    s: seq<CodePoint>, chars: seq<CodePoint>, read: nat, written: nat, start: nat, g: Segment, c: CodePoint)
    requires Absorbing(s, chars, read, written, start, g) && g.rest != []
    ensures Absorbing(s, chars[start := c], read + 1, written, start, Segment(c, g.skipped, g.rest[1..]))
  {
  }

  lemma AbsorbingSkips(s: seq<CodePoint>, chars: seq<CodePoint>, read: nat, written: nat, start: nat, g: Segment)
    requires Absorbing(s, chars, read, written, start, g) && g.rest != []
    ensures Absorbing(s, chars[written + 1 := g.rest[0]], read + 1, written + 1, start,
                      Segment(g.starter, g.skipped + [g.rest[0]], g.rest[1..]))
  {
    var after := chars[written + 1 := g.rest[0]];
    assert after[start + 1..written + 2] == chars[start + 1..written + 1] + [g.rest[0]];
  }

  // What the starter of the given range composes to with next, unless next is blocked.
  method TryCompose(t: Tables, ghost starter: CodePoint, range: (nat, nat), next: CodePoint, previous: int, ccc: nat)
    returns (found: Option<CodePoint>)
    requires IsSearchable(t) && starter < UNICODE_END && range == CompositionRange(t, starter)
    ensures found == if previous < ccc then Properties(t).pair(starter, next) else None
    ensures found.Some? ==> found.value < UNICODE_END
  {
    found := None;
    if range.1 != range.0 && previous < ccc {
      var left := FindComposition(t.compositionData, range.0, range.1, next);
      if t.compositionData[left] == next {
        found := Some(t.compositionData[left + 1]);
      }
    }
  }

  lemma CccIsProperty(t: Tables, c: CodePoint)
    ensures Properties(t).ccc(c) == Ccc(t, c)
  {
  }

  // One step of Absorb, given what the starter composes to with the next character.
  lemma AbsorbStep(u: Ucd, g: Segment, found: Option<CodePoint>)
    requires g.rest != []
    requires found == if PreviousClass(u, g.skipped) < u.ccc(g.rest[0]) then u.pair(g.starter, g.rest[0]) else None
    ensures Absorb(u, g) ==
            if found.Some? then Absorb(u, Segment(found.value, g.skipped, g.rest[1..]))
            else if u.ccc(g.rest[0]) == 0 then g
            else Absorb(u, Segment(g.starter, g.skipped + [g.rest[0]], g.rest[1..]))
  {
  }

  lemma AbsorbEnds(u: Ucd, g: Segment)
    requires g.rest == []
    ensures Absorb(u, g) == g
  {
  }

  // Extends the segment whose starter has been copied to start, reading on after readFrom.
  method AbsorbInPlace(t: Tables, input: Text, readFrom: nat, start: nat) returns (read: nat, written: nat)
    requires IsSearchable(t)
    requires start <= readFrom < |input.chars| && input.chars[start] < UNICODE_END
    modifies input
    ensures readFrom <= read
    ensures var s := old(input.chars);
            Absorbing(s, input.chars, read, written, start,
                      Absorb(Properties(t), Segment(s[start], [], s[readFrom + 1..])))
  {
    hide Properties, Ccc, CompositionRange, IsSearchable, Absorb;
    ghost var u, s := Properties(t), input.chars;
    ghost var g := Segment(s[start], [], s[readFrom + 1..]);
    ghost var goal := Absorb(u, g);
    read, written := readFrom, start;
    var range := CompositionRange(t, input.chars[start]);
    var previous: int := -1;
    while read + 1 < |input.chars|
      invariant readFrom <= read
      invariant Absorbing(s, input.chars, read, written, start, g) && Absorb(u, g) == goal
      invariant previous == PreviousClass(u, g.skipped)
      invariant g.starter < UNICODE_END && range == CompositionRange(t, g.starter)
      decreases |input.chars| - read
    {
      hide Absorbing;
      AbsorbingReads(s, input.chars, read, written, start, g);
      var next := input.chars[read + 1];
      var ccc := Ccc(t, next);
      CccIsProperty(t, next);
      var found := TryCompose(t, g.starter, range, next, previous, ccc);
      AbsorbStep(u, g, found);
      if found.Some? {
        AbsorbingComposes(s, input.chars, read, written, start, g, found.value);
        input.chars := input.chars[start := found.value];
        range := CompositionRange(t, found.value);
        g := Segment(found.value, g.skipped, g.rest[1..]);
      } else if ccc == 0 {
        break;
      } else {
        AbsorbingSkips(s, input.chars, read, written, start, g);
        previous := ccc;
        written := written + 1;
        input.chars := input.chars[written := next];
        g := Segment(g.starter, g.skipped + [next], g.rest[1..]);
      }
      read := read + 1;
    }
    if g.rest == [] {
      AbsorbEnds(u, g);
    }
  }

  // The Hangul branches of compose: the character to be written for the jamo or syllable at
  // readFrom, and the index of the last jamo it takes.
  method ComposeHangul(chars: seq<CodePoint>, readFrom: nat) returns (read: nat, c: CodePoint)
    requires readFrom < |chars| && (IsL(chars[readFrom]) || IsSyllable(chars[readFrom]))
    ensures readFrom <= read < |chars|
    ensures forall u: Ucd :: FirstPiece(u, chars[readFrom..]) == Piece([c], read + 1 - readFrom)
  {
    read, c := readFrom, chars[readFrom];
    if HANGUL_LBASE <= c < HANGUL_LBASE + HANGUL_LCOUNT {
      if read + 1 < |chars| && HANGUL_VBASE <= chars[read + 1] < HANGUL_VBASE + HANGUL_VCOUNT {
        c := HANGUL_SBASE + ((c - HANGUL_LBASE) * HANGUL_VCOUNT + chars[read + 1] - HANGUL_VBASE) * HANGUL_TCOUNT;
        read := read + 1;
        if read + 1 < |chars| && HANGUL_TBASE < chars[read + 1] < HANGUL_TBASE + HANGUL_TCOUNT {
          read := read + 1;
          c := c + (chars[read] - HANGUL_TBASE);
        }
      }
    } else if (c - HANGUL_SBASE) % HANGUL_TCOUNT != 0 && read + 1 < |chars|
              && HANGUL_TBASE < chars[read + 1] < HANGUL_TBASE + HANGUL_TCOUNT {
      read := read + 1;
      c := c + (chars[read] - HANGUL_TBASE);
    }
  }

  lemma SinglePiece(u: Ucd, s: seq<CodePoint>)
    requires s != [] && s[0] >= UNICODE_END
    ensures FirstPiece(u, s) == Piece([s[0]], 1)
  {
  }

  // A finished segment is the first piece of the composed text.
  lemma SegmentWritten(
    u: Ucd, s: seq<CodePoint>, chars: seq<CodePoint>, readFrom: nat, start: nat, read: nat, written: nat)
    requires start <= readFrom < |s| && s[start] == s[readFrom] < UNICODE_END && !IsL(s[start]) && !IsSyllable(s[start])
    requires Absorbing(s, chars, read, written, start, Absorb(u, Segment(s[start], [], s[readFrom + 1..])))
    ensures var p := FirstPiece(u, s[readFrom..]);
            && read + 1 == readFrom + p.used && written + 1 == start + |p.head|
            && |chars| == |s| && chars[..written + 1] == s[..start] + p.head && chars[read + 1..] == s[read + 1..]
  {
    hide Absorb;
    assert s[readFrom..][1..] == s[readFrom + 1..];
    assert chars[..written + 1] == chars[..start] + [chars[start]] + chars[start + 1..written + 1];
  }

  // One round of compose's outer loop: writes the next piece and leaves the cursors after it.
  method ComposeNext(t: Tables, input: Text, readFrom: nat, writtenFrom: nat) returns (read: nat, written: nat)
    requires IsSearchable(t) && writtenFrom <= readFrom < |input.chars|
    modifies input
    ensures |input.chars| == |old(input.chars)|
    ensures var p := FirstPiece(Properties(t), old(input.chars)[readFrom..]);
            && read == readFrom + p.used && written == writtenFrom + |p.head|
            && input.chars[..written] == old(input.chars)[..writtenFrom] + p.head
            && input.chars[read..] == old(input.chars)[read..]
  {
    hide FirstPiece, Absorb, Absorbing, IsSearchable, Properties;
    ghost var u, s := Properties(t), input.chars[readFrom..];
    read, written := readFrom, writtenFrom;
    input.chars := input.chars[written := input.chars[read]];
    assert input.chars[read..] == s && s[1..] == input.chars[read + 1..];
    var c := input.chars[read];
    if IsL(c) || IsSyllable(c) {
      read, c := ComposeHangul(input.chars, read);
      input.chars := input.chars[written := c];
      assert FirstPiece(u, s) == Piece([c], read + 1 - readFrom);
    } else if c < UNICODE_END {
      ghost var copied := input.chars;
      read, written := AbsorbInPlace(t, input, read, written);
      SegmentWritten(u, copied, input.chars, readFrom, writtenFrom, read, written);
    } else {
      SinglePiece(u, s);
    }
    read, written := read + 1, written + 1;
  }

  // Composing s in place: what is written so far, followed by the composed form of what is still
  // to be read, is the composed form of s, and nothing unread has been overwritten.
  ghost predicate Composing(u: Ucd, s: seq<CodePoint>, chars: seq<CodePoint>, read: nat, written: nat) {
    && written <= read <= |s| == |chars|
    && chars[read..] == s[read..]
    && chars[..written] + Compose(u, s[read..]) == Compose(u, s)
  }

  lemma ComposingStep(u: Ucd, s: seq<CodePoint>, before: seq<CodePoint>, after: seq<CodePoint>, read: nat, written: nat)
    requires Composing(u, s, before, read, written) && read < |s| == |after|
    requires var p := FirstPiece(u, before[read..]);
             && after[..written + |p.head|] == before[..written] + p.head
             && after[read + p.used..] == before[read + p.used..]
    ensures var p := FirstPiece(u, before[read..]); Composing(u, s, after, read + p.used, written + |p.head|)
  {
    hide FirstPiece;
    var p := FirstPiece(u, s[read..]);
    assert s[read..][p.used..] == s[read + p.used..];
    assert after[read + p.used..] == before[read..][p.used..];
    ConcatAssociates(before[..written], p.head, Compose(u, s[read + p.used..]));
  }

  lemma ComposingStart(u: Ucd, s: seq<CodePoint>)
    ensures Composing(u, s, s, 0, 0)
  {
    assert s[0..] == s;
  }

  lemma ComposingEnd(u: Ucd, s: seq<CodePoint>, chars: seq<CodePoint>, written: nat)
    requires Composing(u, s, chars, |s|, written)
    ensures chars[..written] == Compose(u, s)
  {
    assert s[|s|..] == [];
  }

  method ComposeInPlace(t: Tables, input: Text)
    requires IsSearchable(t)
    modifies input
    ensures input.chars == Compose(Properties(t), old(input.chars))
  {
    hide Compose, FirstPiece, Properties;
    ghost var u, s := Properties(t), input.chars;
    var read: nat, written: nat := 0, 0;
    ComposingStart(u, s);
    while read < |input.chars|
      invariant Composing(u, s, input.chars, read, written)
      decreases |s| - read
    {
      ghost var before, readFrom, writtenFrom := input.chars, read, written;
      read, written := ComposeNext(t, input, read, written);
      ComposingStep(u, s, before, input.chars, readFrom, writtenFrom);
    }
    ComposingEnd(u, s, input.chars, written);
    if written < read {
      input.chars := input.chars[..written];
    }
  }

  method Normalize(t: Tables, input: Text)
    requires IsSearchable(t)
    modifies input
    ensures input.chars == Nfc(Properties(t), old(input.chars))
    ensures TableOK(t) ==>
              && IsMaximal(Properties(t), input.chars)
              && AreEquivalent(Properties(t), old(input.chars), input.chars)
  {
    hide Compose, Nfd, UcdOK, IsMaximal, AreEquivalent;
    ghost var u, s := Properties(t), input.chars;
    DecomposeNfc(t, input);
    ComposeInPlace(t, input);
    if TableOK(t) {
      NfcIsMaximal(u, s);
      NfcDecidesEquivalence(u, s, s);
    }
  }
}
