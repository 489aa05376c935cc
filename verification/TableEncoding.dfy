// How Unicode data is laid out in the two-level tables, written without the lookups; and the proof
// that the lookups find in such tables exactly the data that was laid out.
module TableEncoding {
  import opened Wrappers
  import opened UnicodeData
  import opened UnicodeTables

  // What is known of each code point: its class; the text it maps to, whether that mapping is
  // canonical, and a spare bit that means nothing; the characters it composes with, each with the
  // composite.
  datatype Data = Data(
    ccc: CodePoint -> nat,
    mapping: CodePoint -> seq<CodePoint>,
    isCanonical: CodePoint -> bool,
    spare: CodePoint -> bool,
    pairs: CodePoint -> seq<(CodePoint, CodePoint)>)

  // Seconds ascend, and composites are code points.
  ghost predicate IsPairList(ps: seq<(CodePoint, CodePoint)>) {
    && (forall i, j | 0 <= i < j < |ps| :: ps[i].0 < ps[j].0)
    && (forall i | 0 <= i < |ps| :: ps[i].1 < 0x11_0000)
  }

  ghost predicate IsData(d: Data) {
    forall c: CodePoint | c < 0x11_0000 :: IsPairList(d.pairs(c))
  }

  // Where the pages of 256 code points are stored: page p in row place[p], row r holding page
  // page[r]. Rows may stand in any order.
  datatype Arrangement = Arrangement(place: seq<nat>, page: seq<nat>)

  ghost predicate IsArrangement(a: Arrangement) {
    && |a.place| == 4352
    && (forall p | 0 <= p < 4352 :: a.place[p] < |a.page| && a.page[a.place[p]] == p)
    && (forall r | 0 <= r < |a.page| :: a.page[r] < 4352)
  }

  // The entries of the code points below n, one after the other.
  function Layout<T>(f: CodePoint -> seq<T>, n: nat): seq<T>
    requires n <= 0x11_0000
  {
    if n == 0 then [] else Layout(f, n - 1) + f(n - 1)
  }

  function Flat(ps: seq<(CodePoint, CodePoint)>): seq<CodePoint> {
    if ps == [] then [] else [ps[0].0, ps[0].1] + Flat(ps[1..])
  }

  function FlatPairs(d: Data): CodePoint -> seq<CodePoint> {
    c => Flat(d.pairs(c))
  }

  // Bit 0 flags a mapping that is not canonical.
  function Flags(d: Data, c: CodePoint): (f: nat)
    ensures f < 4
  {
    (if d.isCanonical(c) then 0 else 1) + (if d.spare(c) then 2 else 0)
  }

  function ClassRow(d: Data, page: nat): (row: seq<nat>)
    requires page < 4352
    ensures |row| == 256
  {
    seq<nat>(256, k requires 0 <= k < 256 => d.ccc(256 * page + k))
  }

  function MappingEntry(d: Data, page: nat, k: nat): nat
    requires page < 4352 && k <= 256
  {
    4 * |Layout(d.mapping, 256 * page + k)| + (if k < 256 then Flags(d, 256 * page + k) else 0)
  }

  // The offset of each code point of the page in units of four, with its flags; then the offset
  // past the page.
  function MappingRow(d: Data, page: nat): (row: seq<nat>)
    requires page < 4352
    ensures |row| == 257
  {
    seq<nat>(257, k requires 0 <= k < 257 => MappingEntry(d, page, k))
  }

  function PairRow(d: Data, page: nat): (row: seq<nat>)
    requires page < 4352
    ensures |row| == 257
  {
    seq<nat>(257, k requires 0 <= k < 257 => |Layout(FlatPairs(d), 256 * page + k)|)
  }

  function Encoded(d: Data, a: Arrangement, pages: nat): RawTables
    requires IsArrangement(a) && pages == 4352
  {
    RawTables(
      a.place, seq(|a.page|, r requires 0 <= r < |a.page| => MappingRow(d, a.page[r])), Layout(d.mapping, 256 * pages),
      a.place, seq(|a.page|, r requires 0 <= r < |a.page| => ClassRow(d, a.page[r])),
      a.place, seq(|a.page|, r requires 0 <= r < |a.page| => PairRow(d, a.page[r])), Layout(FlatPairs(d), 256 * pages))
  }

  // ---------- the layout ----------

  lemma {:induction false} LayoutGrows<T>(f: CodePoint -> seq<T>, m: nat, n: nat)
    requires m <= n <= 0x11_0000
    ensures |Layout(f, m)| <= |Layout(f, n)| && Layout(f, n)[..|Layout(f, m)|] == Layout(f, m)
    decreases n
  {
    if m == n {
    } else {
      LayoutGrows(f, m, n - 1);
    }
  }

  lemma LayoutHolds<T>(f: CodePoint -> seq<T>, c: nat, n: nat)
    requires c < n <= 0x11_0000
    ensures |Layout(f, c)| + |f(c)| == |Layout(f, c + 1)| <= |Layout(f, n)|
    ensures Layout(f, n)[|Layout(f, c)|..|Layout(f, c + 1)|] == f(c)
  {
    LayoutGrows(f, c + 1, n);
    assert Layout(f, c + 1) == Layout(f, c) + f(c);
    hide Layout;
    var all, upTo := Layout(f, n), Layout(f, c + 1);
    assert all[|Layout(f, c)|..|upTo|] == all[..|upTo|][|Layout(f, c)|..];
  }

  lemma {:induction false} FlatLength(ps: seq<(CodePoint, CodePoint)>)
    ensures |Flat(ps)| == 2 * |ps|
  {
    if ps == [] {
    } else {
      FlatLength(ps[1..]);
    }
  }

  lemma {:induction false} FlatAt(ps: seq<(CodePoint, CodePoint)>, i: nat)
    requires i < |ps|
    ensures |Flat(ps)| == 2 * |ps| && Flat(ps)[2 * i] == ps[i].0 && Flat(ps)[2 * i + 1] == ps[i].1
    decreases i
  {
    FlatLength(ps);
    if i == 0 {
    } else {
      FlatAt(ps[1..], i - 1);
      assert Flat(ps)[2..] == Flat(ps[1..]);
      assert Flat(ps)[2 * i] == Flat(ps)[2..][2 * (i - 1)];
      assert Flat(ps)[2 * i + 1] == Flat(ps)[2..][2 * (i - 1) + 1];
    }
  }

  lemma {:induction false} FlatLayoutIsEven(d: Data, n: nat)
    requires n <= 0x11_0000
    ensures |Layout(FlatPairs(d), n)| % 2 == 0
  {
    if n == 0 {
    } else {
      FlatLayoutIsEven(d, n - 1);
      FlatLength(d.pairs(n - 1));
    }
  }

  // ---------- the encoded tables are tables ----------

  lemma MappingOffset(d: Data, page: nat, k: nat)
    requires page < 4352 && k <= 256
    ensures MappingEntry(d, page, k) / 4 == |Layout(d.mapping, 256 * page + k)|
    ensures k < 256 ==> (MappingEntry(d, page, k) % 2 == 1 <==> !d.isCanonical(256 * page + k))
    ensures MappingRow(d, page)[k] == MappingEntry(d, page, k)
  {
    hide Layout, Flags;
    var flags := if k < 256 then Flags(d, 256 * page + k) else 0;
    QuarterOf(|Layout(d.mapping, 256 * page + k)|, flags);
    if k < 256 {
      ParityOf(|Layout(d.mapping, 256 * page + k)|, flags);
      FlagsParity(d, 256 * page + k);
    }
  }

  lemma FlagsParity(d: Data, c: CodePoint)
    ensures Flags(d, c) % 2 == 1 <==> !d.isCanonical(c)
  {
  }

  lemma QuarterOf(x: nat, f: nat)
    requires f < 4
    ensures (4 * x + f) / 4 == x
  {
  }

  lemma ParityOf(x: nat, f: nat)
    requires f < 4
    ensures (4 * x + f) % 2 == f % 2
  {
    if f == 0 {
      Halves(4 * x + f, 2 * x, 0);
    } else if f == 1 {
      Halves(4 * x + f, 2 * x, 1);
    } else if f == 2 {
      Halves(4 * x + f, 2 * x + 1, 0);
    } else {
      Halves(4 * x + f, 2 * x + 1, 1);
    }
  }

  lemma Halves(n: nat, q: nat, r: nat)
    requires n == 2 * q + r && r < 2
    ensures n % 2 == r
  {
  }

  lemma MappingRowIsOK(d: Data, page: nat, all: nat)
    requires page < 4352 && all == 0x11_0000
    ensures IsDecompositionRow(MappingRow(d, page), |Layout(d.mapping, all)|)
  {
    hide Layout, MappingEntry, MappingRow;
    var row, limit := MappingRow(d, page), |Layout(d.mapping, all)|;
    forall k: nat | k + 1 < |row| ensures IsStep(row, k, limit) {
      MappingStep(d, page, k, all);
    }
    RowIsOK(row, limit);
  }

  lemma MappingStep(d: Data, page: nat, k: nat, all: nat)
    requires page < 4352 && k < 256 && all == 0x11_0000
    ensures var row := MappingRow(d, page); row[k] / 4 <= row[k + 1] / 4 <= |Layout(d.mapping, all)|
  {
    hide Layout, MappingEntry, MappingRow;
    MappingOffset(d, page, k);
    MappingOffset(d, page, k + 1);
    LayoutGrows(d.mapping, 256 * page + k, 256 * page + k + 1);
    LayoutGrows(d.mapping, 256 * page + k + 1, all);
  }

  predicate IsStep(row: seq<nat>, k: nat, limit: nat)
    requires k + 1 < |row|
  {
    row[k] / 4 <= row[k + 1] / 4 <= limit
  }

  lemma RowIsOK(row: seq<nat>, limit: nat)
    requires forall k: nat | k + 1 < |row| :: IsStep(row, k, limit)
    ensures IsDecompositionRow(row, limit)
  {
    forall k, n | 0 <= k < n == k + 1 < |row| ensures row[k] / 4 <= row[n] / 4 <= limit {
      assert IsStep(row, k, limit);
    }
  }

  lemma PairRowIsOK(d: Data, page: nat, all: nat)
    requires page < 4352 && all == 0x11_0000
    ensures IsCompositionRow(PairRow(d, page), |Layout(FlatPairs(d), all)|)
  {
    hide Layout, PairRow;
    var row, limit := PairRow(d, page), |Layout(FlatPairs(d), all)|;
    forall k, n | 0 <= k < n == k + 1 < |row|
      ensures row[k] <= row[n] <= limit && (row[n] - row[k]) % 2 == 0
    {
      PairStep(d, page, k, all);
      assert n == k + 1;
    }
  }

  lemma PairStep(d: Data, page: nat, k: nat, all: nat)
    requires page < 4352 && k < 256 && all == 0x11_0000
    ensures var row := PairRow(d, page);
      row[k] <= row[k + 1] <= |Layout(FlatPairs(d), all)| && (row[k + 1] - row[k]) % 2 == 0
  {
    hide Layout;
    var f := FlatPairs(d);
    LayoutGrows(f, 256 * page + k, 256 * page + k + 1);
    LayoutGrows(f, 256 * page + k + 1, all);
    FlatLayoutIsEven(d, 256 * page + k);
    FlatLayoutIsEven(d, 256 * page + k + 1);
  }

  lemma EncodedIsWellFormed(d: Data, a: Arrangement, pages: nat)
    requires IsArrangement(a) && pages == 4352
    ensures WellFormed(Encoded(d, a, pages))
  {
    hide Layout, IsDecompositionRow, IsCompositionRow, MappingRow, PairRow, ClassRow;
    var t := Encoded(d, a, pages);
    forall r | 0 <= r < |t.decompositionBlock|
      ensures IsDecompositionRow(t.decompositionBlock[r], |t.decompositionData|)
    {
      MappingRowIsOK(d, a.page[r], 256 * pages);
    }
    forall r | 0 <= r < |t.compositionBlock| ensures IsCompositionRow(t.compositionBlock[r], |t.compositionData|) {
      PairRowIsOK(d, a.page[r], 256 * pages);
    }
  }

  // ---------- the lookups find what was laid out ----------

  lemma CccIsEncoded(d: Data, a: Arrangement, t: Tables, c: CodePoint)
    requires IsArrangement(a) && t == Encoded(d, a, 4352)
    ensures Properties(t).ccc(c) == if c < 0x11_0000 then d.ccc(c) else 0
  {
    hide Layout, MappingRow, PairRow;
    if c < 0x11_0000 {
      assert 256 * (c / 256) + c % 256 == c;
      assert t.cccBlock[t.cccIndex[c / 256]] == ClassRow(d, c / 256);
    }
  }

  lemma SliceIsEncoded(d: Data, a: Arrangement, t: Tables, c: CodePoint)
    requires IsArrangement(a) && t == Encoded(d, a, 4352) && c < 0x11_0000
    ensures Slice(t, c) == if d.isCanonical(c) then d.mapping(c) else []
  {
    hide Layout, ClassRow, PairRow, MappingEntry, MappingRow;
    var p, k := c / 256, c % 256;
    assert 256 * p + k == c;
    assert t.decompositionBlock[t.decompositionIndex[p]] == MappingRow(d, p);
    MappingOffset(d, p, k);
    MappingOffset(d, p, k + 1);
    LayoutHolds(d.mapping, c, 0x11_0000);
  }

  lemma DecompositionIsEncoded(d: Data, a: Arrangement, t: Tables, c: CodePoint)
    requires IsArrangement(a) && t == Encoded(d, a, 4352) && !(0xAC00 <= c <= 0xD7A3)
    ensures Properties(t).decomposition(c) ==
            if c < 0x11_0000 && d.isCanonical(c) && d.mapping(c) != [] then d.mapping(c) else [c]
  {
    hide Slice, Encoded;
    if c < 0x11_0000 {
      SliceIsEncoded(d, a, t, c);
    }
  }

  lemma RangeIsEncoded(d: Data, a: Arrangement, t: Tables, c: CodePoint)
    requires IsArrangement(a) && t == Encoded(d, a, 4352) && c < 0x11_0000
    ensures var r := CompositionRange(t, c); t.compositionData[r.0..r.1] == Flat(d.pairs(c))
  {
    hide Layout, ClassRow, MappingRow;
    var p, k := c / 256, c % 256;
    assert 256 * p + k == c;
    assert t.compositionBlock[t.compositionIndex[p]] == PairRow(d, p);
    LayoutHolds(FlatPairs(d), c, 0x11_0000);
  }

  lemma {:induction false} FoundInFlat(
    data: seq<CodePoint>, lo: nat, hi: nat, ps: seq<(CodePoint, CodePoint)>, b: CodePoint)
    requires lo <= hi <= |data| && (hi - lo) % 2 == 0 && data[lo..hi] == Flat(ps) && IsPairList(ps)
    ensures forall i | 0 <= i < |ps| && ps[i].0 == b :: FindPair(data, lo, hi, b) == Some(ps[i].1)
    ensures (forall i | 0 <= i < |ps| :: ps[i].0 != b) ==> FindPair(data, lo, hi, b) == None
    decreases |ps|
  {
    FlatLength(ps);
    if ps == [] {
    } else {
      var rest := ps[1..];
      assert data[lo..hi][0] == data[lo] && data[lo..hi][1] == data[lo + 1];
      assert data[lo + 2..hi] == data[lo..hi][2..] == Flat(rest);
      assert forall i | 0 < i < |ps| :: ps[i] == rest[i - 1];
      assert forall i | 0 <= i < |rest| :: rest[i] == ps[i + 1];
      FoundInFlat(data, lo + 2, hi, rest, b);
    }
  }

  lemma PairIsEncoded(d: Data, a: Arrangement, t: Tables, x: CodePoint, y: CodePoint)
    requires IsArrangement(a) && IsData(d) && t == Encoded(d, a, 4352)
    ensures x < 0x11_0000 ==>
              forall i | 0 <= i < |d.pairs(x)| && d.pairs(x)[i].0 == y ::
                Properties(t).pair(x, y) == Some(d.pairs(x)[i].1)
    ensures x >= 0x11_0000 || (forall i | 0 <= i < |d.pairs(x)| :: d.pairs(x)[i].0 != y) ==>
              Properties(t).pair(x, y) == None
  {
    hide CompositionRange, Encoded;
    if x < 0x11_0000 {
      var r := CompositionRange(t, x);
      RangeIsEncoded(d, a, t, x);
      FoundInFlat(t.compositionData, r.0, r.1, d.pairs(x), y);
    }
  }

  // The methods may be called on the encoded tables.
  lemma EncodedIsSearchable(d: Data, a: Arrangement, t: Tables)
    requires IsArrangement(a) && IsData(d) && t == Encoded(d, a, 4352)
    ensures IsSearchable(t)
  {
    hide CompositionRange, Encoded, SortedKeys, IsPairList;
    forall c: CodePoint | c < UNICODE_END
      ensures var r := CompositionRange(t, c);
        && SortedKeys(t.compositionData, r.0, r.1)
        && forall k | IsKey(r.0, k) && k < r.1 :: t.compositionData[k + 1] < UNICODE_END
    {
      var r := CompositionRange(t, c);
      RangeIsEncoded(d, a, t, c);
      FlatIsSorted(t.compositionData, r.0, r.1, d.pairs(c));
    }
  }

  lemma HalvesAscend(lo: nat, i: int, j: int)
    requires IsKey(lo, i) && IsKey(lo, j) && i < j
    ensures (i - lo) / 2 < (j - lo) / 2
  {
  }

  lemma FlatIsSorted(data: seq<CodePoint>, lo: nat, hi: nat, ps: seq<(CodePoint, CodePoint)>)
    requires lo <= hi <= |data| && data[lo..hi] == Flat(ps) && IsPairList(ps)
    ensures SortedKeys(data, lo, hi)
    ensures (hi - lo) % 2 == 0 && forall k | IsKey(lo, k) && k < hi :: data[k + 1] < UNICODE_END
  {
    FlatLength(ps);
    forall k | IsKey(lo, k) && k < hi
      ensures data[k] == ps[(k - lo) / 2].0 && data[k + 1] == ps[(k - lo) / 2].1
    {
      KeyAt(data, lo, hi, ps, (k - lo) / 2);
    }
    hide Flat;
    forall i, j | IsKey(lo, i) && IsKey(lo, j) && i < j < hi ensures data[i] < data[j] {
      HalvesAscend(lo, i, j);
    }
  }

  lemma KeyAt(data: seq<CodePoint>, lo: nat, hi: nat, ps: seq<(CodePoint, CodePoint)>, i: nat)
    requires lo <= hi <= |data| && data[lo..hi] == Flat(ps) && i < |ps|
    ensures lo + 2 * i + 1 < hi && data[lo + 2 * i] == ps[i].0 && data[lo + 2 * i + 1] == ps[i].1
  {
    FlatAt(ps, i);
    hide Flat;
    assert data[lo..hi][2 * i] == data[lo + 2 * i] && data[lo..hi][2 * i + 1] == data[lo + 2 * i + 1];
  }
}
