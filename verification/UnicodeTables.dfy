// The Unicode data as the program stores it: two-level tables for decomposition, combining
// class and composition, the lookups made in them, and the character properties they encode.
module UnicodeTables {
  import opened Wrappers
  import opened UnicodeData

  const INDEX_LENGTH := 4352

  datatype RawTables = RawTables(
    decompositionIndex: seq<nat>,
    decompositionBlock: seq<seq<nat>>,
    decompositionData: seq<CodePoint>,
    cccIndex: seq<nat>,
    cccBlock: seq<seq<nat>>,
    compositionIndex: seq<nat>,
    compositionBlock: seq<seq<nat>>,
    compositionData: seq<CodePoint>)

  // A two-level table: the high bits of a code point select a row, the low eight a column.
  ghost predicate IsTrie(index: seq<nat>, block: seq<seq<nat>>, width: nat) {
    && |index| == INDEX_LENGTH
    && (forall i | 0 <= i < INDEX_LENGTH :: index[i] < |block|)
    && (forall r | 0 <= r < |block| :: |block[r]| == width)
  }

  // Offsets (in units of four) that ascend and stay within the data.
  ghost predicate IsDecompositionRow(row: seq<nat>, limit: nat) {
    forall k, n | 0 <= k < n == k + 1 < |row| :: row[k] / 4 <= row[n] / 4 <= limit
  }

  // Offsets that ascend by whole key/composite pairs and stay within the data.
  ghost predicate IsCompositionRow(row: seq<nat>, limit: nat) {
    forall k, n | 0 <= k < n == k + 1 < |row| :: row[k] <= row[n] <= limit && (row[n] - row[k]) % 2 == 0
  }

  // The shape that makes every access of the program an access inside its table.
  ghost predicate WellFormed(t: RawTables) {
    && IsTrie(t.decompositionIndex, t.decompositionBlock, 257)
    && IsTrie(t.cccIndex, t.cccBlock, 256)
    && IsTrie(t.compositionIndex, t.compositionBlock, 257)
    && (forall r | 0 <= r < |t.decompositionBlock| ::
          IsDecompositionRow(t.decompositionBlock[r], |t.decompositionData|))
    && (forall r | 0 <= r < |t.compositionBlock| ::
          IsCompositionRow(t.compositionBlock[r], |t.compositionData|))
  }

  // Tables in which nothing decomposes, nothing combines and nothing composes.
  function EmptyTables(): RawTables {
    var zeros := seq(INDEX_LENGTH, _ => 0);
    RawTables(zeros, [seq(257, _ => 0)], [], zeros, [seq(256, _ => 0)], zeros, [seq(257, _ => 0)], [])
  }

  type Tables = t: RawTables | WellFormed(t) witness EmptyTables()

  // ---------- lookups ----------

  // get_ccc
  function Ccc(t: Tables, c: CodePoint): nat {
    if c < UNICODE_END then t.cccBlock[t.cccIndex[c / 256]][c % 256] else 0
  }

  // The table slice for c; empty when there is none or when its first offset is flagged.
  function Slice(t: Tables, c: CodePoint): seq<CodePoint>
    requires c < UNICODE_END
  {
    var row := t.decompositionBlock[t.decompositionIndex[c / 256]];
    var first, next := row[c % 256], row[c % 256 + 1];
    if first % 2 == 1 then [] else t.decompositionData[first / 4..next / 4]
  }

  // The full canonical decomposition of one code point.
  function Decomposition(t: Tables, c: CodePoint): (d: seq<CodePoint>)
    ensures |d| > 0
  {
    if IsSyllable(c) then HangulDecomposition(c)
    else if c < UNICODE_END && Slice(t, c) != [] then Slice(t, c)
    else [c]
  }

  // The first and past-the-end offsets of the pairs that start with c.
  function CompositionRange(t: Tables, c: CodePoint): (r: (nat, nat))
    requires c < UNICODE_END
    ensures r.0 <= r.1 <= |t.compositionData| && (r.1 - r.0) % 2 == 0
  {
    var row := t.compositionBlock[t.compositionIndex[c / 256]];
    (row[c % 256], row[c % 256 + 1])
  }

  // Linear search for the pair whose second member is b.
  function FindPair(data: seq<CodePoint>, lo: nat, hi: nat, b: CodePoint): Option<CodePoint>
    requires lo <= hi <= |data| && (hi - lo) % 2 == 0
    decreases hi - lo
  {
    if lo == hi then None
    else if data[lo] == b then Some(data[lo + 1])
    else FindPair(data, lo + 2, hi, b)
  }

  // The code point that a followed by b composes to, if any.
  function Pair(t: Tables, a: CodePoint, b: CodePoint): Option<CodePoint> {
    if a < UNICODE_END then
      var r := CompositionRange(t, a);
      FindPair(t.compositionData, r.0, r.1, b)
    else
      None
  }

  // In a range of key/composite pairs that begins at lo, keys are at every second offset.
  predicate IsKey(lo: nat, k: int) {
    lo <= k && (k - lo) % 2 == 0
  }

  ghost predicate SortedKeys(data: seq<CodePoint>, lo: nat, hi: nat)
    requires lo <= hi <= |data|
  {
    forall i, j | IsKey(lo, i) && IsKey(lo, j) && i < j < hi :: data[i] < data[j]
  }

  // What looking up compositions needs of the data: keys to search, composites to look up in turn.
  ghost predicate IsSearchable(t: Tables) {
    forall a: CodePoint | a < UNICODE_END ::
      var r := CompositionRange(t, a);
      && SortedKeys(t.compositionData, r.0, r.1)
      && forall k | IsKey(r.0, k) && k < r.1 :: t.compositionData[k + 1] < UNICODE_END
  }

  // The character properties that the tables encode.
  function Properties(t: Tables): Ucd {
    Ucd(c => Ccc(t, c), c => Decomposition(t, c), (a, b) => Pair(t, a, b))
  }

  // What the contents of the tables must satisfy.
  ghost predicate TableOK(t: Tables) {
    UcdOK(Properties(t)) && IsSearchable(t)
  }
}
