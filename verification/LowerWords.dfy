// What lowering makes of any word, ASCII or not: the two additions carry from byte to byte. And
// which byte values are the letters.
module LowerWords {
  import opened Words
  import opened LowerAscii

  // ---------- the letters ----------

  // A capital letter becomes the small letter as far into the alphabet; any other byte is left.
  lemma LettersAreLowered(b: Byte)
    ensures Lower('A' as int as Byte) == 'a' as int as Byte && Lower('Z' as int as Byte) == 'z' as int as Byte
    ensures 'A' as int as Byte <= b <= 'Z' as int as Byte ==>
              Lower(b) - ('a' as int as Byte) == b - ('A' as int as Byte)
    ensures !('A' as int as Byte <= b <= 'Z' as int as Byte) ==> Lower(b) == b
    ensures IsAscii(b) <==> b < 128
  {
  }

  // ---------- byte by byte ----------

  // Whether adding k to x carries, with a carry from the byte below.
  predicate Carries(x: Byte, k: Byte, carry: bool) {
    x > 0xFF - k || (x == 0xFF - k && carry)
  }

  function SumByte(x: Byte, k: Byte, carry: bool): Byte {
    x + k + (if carry then 1 else 0)
  }

  // The case bit is changed where the two sums differ in their top bit.
  function LowerByte(x: Byte, carryA: bool, carryZ: bool): Byte {
    x ^ (((SumByte(x, 63, carryA) ^ SumByte(x, 37, carryZ)) & 0x80) >> 2)
  }

  // Of the lower seven bits, those of a capital letter have the case bit flipped; a carry takes '@'
  // in as well, and the other one leaves 'Z' out.
  lemma CaseBitIsFlipped(x: Byte, carryA: bool, carryZ: bool)
    ensures var first := ('A' as int - if carryA then 1 else 0) as Byte;
            var last := ('Z' as int - if carryZ then 1 else 0) as Byte;
            LowerByte(x, carryA, carryZ) == if first <= x & 0x7F <= last then x ^ 0x20 else x
  {
  }

  // Whether adding k to each byte of b carries into byte n.
  predicate CarriesInto(b: seq<Byte>, k: Byte, n: nat)
    requires n <= |b|
  {
    n > 0 && Carries(b[n - 1], k, CarriesInto(b, k, n - 1))
  }

  // Byte n of what the bytes b, the least significant first, become.
  function LoweredAt(b: seq<Byte>, n: nat): Byte
    requires n < |b|
  {
    LowerByte(b[n], CarriesInto(b, 63, n), CarriesInto(b, 37, n))
  }

  // The same for each place, spelled out.
  predicate Into1(b: seq<Byte>, k: Byte)
    requires |b| == 8
  {
    Carries(b[0], k, false)
  }

  predicate Into2(b: seq<Byte>, k: Byte)
    requires |b| == 8
  {
    Carries(b[1], k, Into1(b, k))
  }

  predicate Into3(b: seq<Byte>, k: Byte)
    requires |b| == 8
  {
    Carries(b[2], k, Into2(b, k))
  }

  predicate Into4(b: seq<Byte>, k: Byte)
    requires |b| == 8
  {
    Carries(b[3], k, Into3(b, k))
  }

  predicate Into5(b: seq<Byte>, k: Byte)
    requires |b| == 8
  {
    Carries(b[4], k, Into4(b, k))
  }

  predicate Into6(b: seq<Byte>, k: Byte)
    requires |b| == 8
  {
    Carries(b[5], k, Into5(b, k))
  }

  predicate Into7(b: seq<Byte>, k: Byte)
    requires |b| == 8
  {
    Carries(b[6], k, Into6(b, k))
  }

  lemma CarriesUpwards(b: seq<Byte>, k: Byte)
    requires |b| == 8
    ensures !CarriesInto(b, k, 0)
    ensures CarriesInto(b, k, 1) == Into1(b, k)
    ensures CarriesInto(b, k, 2) == Into2(b, k)
    ensures CarriesInto(b, k, 3) == Into3(b, k)
    ensures CarriesInto(b, k, 4) == Into4(b, k)
    ensures CarriesInto(b, k, 5) == Into5(b, k)
    ensures CarriesInto(b, k, 6) == Into6(b, k)
    ensures CarriesInto(b, k, 7) == Into7(b, k)
  {
    hide Carries;
  }

  lemma Byte0IsLowered(w: bv64)
    ensures var b := Unpack(w); Unpack(LowerWord(w))[0] == LowerByte(b[0], false, false)
  {
  }

  lemma Byte1IsLowered(w: bv64)
    ensures var b := Unpack(w); Unpack(LowerWord(w))[1] == LowerByte(b[1], Into1(b, 63), Into1(b, 37))
  {
  }

  lemma Byte2IsLowered(w: bv64)
    ensures var b := Unpack(w); Unpack(LowerWord(w))[2] == LowerByte(b[2], Into2(b, 63), Into2(b, 37))
  {
  }

  lemma Byte3IsLowered(w: bv64)
    ensures var b := Unpack(w); Unpack(LowerWord(w))[3] == LowerByte(b[3], Into3(b, 63), Into3(b, 37))
  {
  }

  lemma Byte4IsLowered(w: bv64)
    ensures var b := Unpack(w); Unpack(LowerWord(w))[4] == LowerByte(b[4], Into4(b, 63), Into4(b, 37))
  {
  }

  lemma Byte5IsLowered(w: bv64)
    ensures var b := Unpack(w); Unpack(LowerWord(w))[5] == LowerByte(b[5], Into5(b, 63), Into5(b, 37))
  {
  }

  lemma Byte6IsLowered(w: bv64)
    ensures var b := Unpack(w); Unpack(LowerWord(w))[6] == LowerByte(b[6], Into6(b, 63), Into6(b, 37))
  {
  }

  lemma Byte7IsLowered(w: bv64)
    ensures var b := Unpack(w); Unpack(LowerWord(w))[7] == LowerByte(b[7], Into7(b, 63), Into7(b, 37))
  {
  }

  lemma WordIsLoweredAt(w: bv64, n: nat)
    requires n < 8
    ensures Unpack(LowerWord(w))[n] == LoweredAt(Unpack(w), n)
  {
    hide LowerWord, LowerByte, CarriesInto, Unpack, Into1, Into2, Into3, Into4, Into5, Into6, Into7;
    CarriesUpwards(Unpack(w), 63);
    CarriesUpwards(Unpack(w), 37);
    if n == 0 {
      Byte0IsLowered(w);
    } else if n == 1 {
      Byte1IsLowered(w);
    } else if n == 2 {
      Byte2IsLowered(w);
    } else if n == 3 {
      Byte3IsLowered(w);
    } else if n == 4 {
      Byte4IsLowered(w);
    } else if n == 5 {
      Byte5IsLowered(w);
    } else if n == 6 {
      Byte6IsLowered(w);
    } else {
      Byte7IsLowered(w);
    }
  }

  // ---------- whole texts ----------

  // Byte n of a chunk of at most eight bytes, after the chunk is lowered in a word: the carries
  // run forwards through memory on a little-endian machine and backwards on a big-endian one.
  function LoweredInChunk(bigEndian: bool, b: seq<Byte>, n: nat): Byte
    requires n < |b| <= 8
  {
    if bigEndian then LoweredAt(Reversed(Padded(b)), 7 - n) else LoweredAt(Padded(b), n)
  }

  lemma ChunkIsLoweredAt(bigEndian: bool, b: seq<Byte>, n: nat)
    requires n < |b| <= 8
    ensures LowerChunk(bigEndian, b)[n] == LoweredInChunk(bigEndian, b, n)
  {
    hide Pack, Unpack, LowerWord, Padded, LoweredAt;
    var p := Padded(b);
    var q := if bigEndian then Reversed(p) else p;
    UnpackPack(q);
    WordIsLoweredAt(Pack(q), if bigEndian then 7 - n else n);
  }

  // Every byte of a text, ASCII or not, depends on the bytes of its own word and on nothing else.
  lemma {:induction false} TextIsLoweredAt(bigEndian: bool, s: seq<Byte>, i: nat)
    requires i < |s|
    ensures LowerText(bigEndian, s)[i] == LoweredInChunk(bigEndian, WordAround(s, i), i % 8)
  {
    hide LowerChunk, LoweredInChunk, WordAround;
    if i < 8 {
      WordAroundFirst(s, i);
      ChunkIsLoweredAt(bigEndian, if |s| < 8 then s else s[..8], i);
    } else {
      WordAroundLater(s, i);
      TextIsLoweredAt(bigEndian, s[8..], i - 8);
    }
  }

  // A byte with only ASCII below it in the word receives no carry, whatever stands above it.
  lemma {:induction false} AsciiDoesNotCarry(b: seq<Byte>, n: nat)
    requires n <= |b| && AllAscii(b[..n])
    ensures !CarriesInto(b, 63, n) && !CarriesInto(b, 37, n)
    ensures n < |b| && IsAscii(b[n]) ==> LoweredAt(b, n) == Lower(b[n])
  {
    if n > 0 {
      assert b[..n][n - 1] == b[n - 1] && b[..n][..n - 1] == b[..n - 1];
      AsciiDoesNotCarry(b, n - 1);
    }
    if n < |b| {
      CaseBitIsFlipped(b[n], false, false);
    }
  }
}
