// Eight bytes held in one 64-bit word, as memcpy puts them there on a little-endian and on a
// big-endian machine, and the bit tricks that work on all eight at once.
module Words {

  type Byte = bv8

  const ONES: bv64 := 0x0101_0101_0101_0101
  const HIGH_BITS: bv64 := 0x8080_8080_8080_8080

  // The word whose bytes, from the least significant up, are b.
  function Pack(b: seq<Byte>): bv64
    requires |b| == 8
  {
    (b[0] as bv64) | ((b[1] as bv64) << 8) | ((b[2] as bv64) << 16) | ((b[3] as bv64) << 24)
    | ((b[4] as bv64) << 32) | ((b[5] as bv64) << 40) | ((b[6] as bv64) << 48) | ((b[7] as bv64) << 56)
  }

  // The bytes of a word, from the least significant up.
  function Unpack(w: bv64): (b: seq<Byte>)
    ensures |b| == 8
  {
    [(w & 0xFF) as Byte, ((w >> 8) & 0xFF) as Byte, ((w >> 16) & 0xFF) as Byte, ((w >> 24) & 0xFF) as Byte,
     ((w >> 32) & 0xFF) as Byte, ((w >> 40) & 0xFF) as Byte, ((w >> 48) & 0xFF) as Byte, ((w >> 56) & 0xFF) as Byte]
  }

  function Reversed(b: seq<Byte>): (r: seq<Byte>)
    requires |b| == 8
    ensures |r| == 8
  {
    [b[7], b[6], b[5], b[4], b[3], b[2], b[1], b[0]]
  }

  // memcpy of eight bytes into a word.
  function Load(bigEndian: bool, b: seq<Byte>): bv64
    requires |b| == 8
  {
    if bigEndian then Pack(Reversed(b)) else Pack(b)
  }

  // memcpy of a word into eight bytes.
  function Store(bigEndian: bool, w: bv64): (b: seq<Byte>)
    ensures |b| == 8
  {
    if bigEndian then Reversed(Unpack(w)) else Unpack(w)
  }

  // Up to eight bytes copied into a word of zeros.
  function Padded(b: seq<Byte>): (r: seq<Byte>)
    requires |b| <= 8
    ensures |r| == 8
  {
    b + seq(8 - |b|, _ => 0)
  }

  function Word(bigEndian: bool, b: seq<Byte>): bv64
    requires |b| <= 8
  {
    Load(bigEndian, Padded(b))
  }

  function Broadcast(c: Byte): bv64 {
    ONES * (c as bv64)
  }

  // Multiplying by ONES puts c in every byte.
  lemma BroadcastFills(c: Byte)
    ensures Broadcast(c) == Pack([c, c, c, c, c, c, c, c])
  {
  }

  lemma UnpackPack(b: seq<Byte>)
    requires |b| == 8
    ensures Unpack(Pack(b)) == b
  {
  }

  lemma PackUnpack(w: bv64)
    ensures Pack(Unpack(w)) == w
  {
  }

  // ---------- byte order ----------

  function SwapBytes(w: bv64): bv64 {
    ((w & 0xff00_0000_0000_0000) >> 56) | ((w & 0x00ff_0000_0000_0000) >> 40) |
    ((w & 0x0000_ff00_0000_0000) >> 24) | ((w & 0x0000_00ff_0000_0000) >> 8) |
    ((w & 0x0000_0000_ff00_0000) << 8) | ((w & 0x0000_0000_00ff_0000) << 24) |
    ((w & 0x0000_0000_0000_ff00) << 40) | ((w & 0x0000_0000_0000_00ff) << 56)
  }

  function SwapBytesIfBigEndian(bigEndian: bool, w: bv64): bv64 {
    if bigEndian then SwapBytes(w) else w
  }

  lemma SwapReverses(w: bv64)
    ensures Unpack(SwapBytes(w)) == Reversed(Unpack(w))
    ensures SwapBytes(SwapBytes(w)) == w
  {
  }

  // After the swap the first byte of memory is the least significant, whatever the machine.
  lemma SwapMakesLittleEndian(bigEndian: bool, b: seq<Byte>)
    requires |b| == 8
    ensures SwapBytesIfBigEndian(bigEndian, Load(bigEndian, b)) == Pack(b)
  {
    SwapReverses(Pack(Reversed(b)));
    UnpackPack(Reversed(b));
    assert Reversed(Reversed(b)) == b;
    PackUnpack(SwapBytes(Pack(Reversed(b))));
  }
}
