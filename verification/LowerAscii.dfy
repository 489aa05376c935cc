// Lowercasing ASCII text in place, eight bytes at a time.
module LowerAscii {
  import opened Words

  predicate IsAscii(c: Byte) {
    c < 0x80
  }

  // Lowercasing one byte.
  function Lower(c: Byte): Byte {
    if 0x41 <= c <= 0x5A then c + 0x20 else c
  }

  // Adding puts 0x80 in each byte at or above 'A', and above 'Z'; where the two differ the byte
  // is a capital, and a quarter of 0x80 is the case bit.
  function LowerWord(w: bv64): bv64 {
    w ^ ((((w + Broadcast(128 - 0x41)) ^ (w + Broadcast(128 - 0x5A - 1))) & Broadcast(0x80)) >> 2)
  }

  function HighBits(w: bv64): bv64 {
    w & Broadcast(0x80)
  }

  predicate HasNoHighBit(w: bv64) {
    HighBits(w) == 0
  }

  // In a word of ASCII bytes no addition carries into the next byte.
  lemma LowBytesAreLowered(w: bv64)
    requires HasNoHighBit(w)
    ensures var b, r := Unpack(w), Unpack(LowerWord(w));
            r[0] == Lower(b[0]) && r[1] == Lower(b[1]) && r[2] == Lower(b[2]) && r[3] == Lower(b[3])
  {
  }

  lemma HighBytesAreLowered(w: bv64)
    requires HasNoHighBit(w)
    ensures var b, r := Unpack(w), Unpack(LowerWord(w));
            r[4] == Lower(b[4]) && r[5] == Lower(b[5]) && r[6] == Lower(b[6]) && r[7] == Lower(b[7])
  {
  }

  lemma NonAsciiBits(w: bv64)
    ensures var b := Unpack(w);
            HasNoHighBit(w) <==>
            IsAscii(b[0]) && IsAscii(b[1]) && IsAscii(b[2]) && IsAscii(b[3])
            && IsAscii(b[4]) && IsAscii(b[5]) && IsAscii(b[6]) && IsAscii(b[7])
  {
  }

  ghost predicate AllAscii(s: seq<Byte>) {
    forall i | 0 <= i < |s| :: IsAscii(s[i])
  }

  // What the bytes b become when they are loaded, lowered and stored as one word.
  function LowerChunk(bigEndian: bool, b: seq<Byte>): (r: seq<Byte>)
    requires |b| <= 8
    ensures |r| == |b|
  {
    Store(bigEndian, LowerWord(Word(bigEndian, b)))[..|b|]
  }

  lemma PaddingIsAscii(b: seq<Byte>)
    requires |b| <= 8
    ensures AllAscii(Padded(b)) <==> AllAscii(b)
  {
    assert forall i | 0 <= i < |b| :: Padded(b)[i] == b[i];
  }

  lemma WordIsAscii(w: bv64)
    ensures HasNoHighBit(w) <==> AllAscii(Unpack(w))
  {
    hide HasNoHighBit, Unpack, IsAscii;
    NonAsciiBits(w);
  }

  lemma ReversedIsAscii(b: seq<Byte>)
    requires |b| == 8
    ensures AllAscii(Reversed(b)) <==> AllAscii(b)
  {
    hide IsAscii;
    var r := Reversed(b);
    assert forall i | 0 <= i < 8 :: b[i] == r[7 - i];
  }

  // The bits collected in non_ascii tell whether every byte copied into the word is ASCII.
  lemma ChunkIsChecked(bigEndian: bool, b: seq<Byte>)
    requires |b| <= 8
    ensures HasNoHighBit(Word(bigEndian, b)) <==> AllAscii(b)
  {
    hide Pack, Unpack, HasNoHighBit, Padded, Reversed, AllAscii;
    var p := Padded(b);
    var q := if bigEndian then Reversed(p) else p;
    UnpackPack(q);
    WordIsAscii(Pack(q));
    PaddingIsAscii(b);
    ReversedIsAscii(p);
  }

  ghost predicate IsLowered(b: seq<Byte>, r: seq<Byte>) {
    |r| == |b| && forall i | 0 <= i < |b| :: r[i] == Lower(b[i])
  }

  lemma WordIsLowered(w: bv64)
    requires HasNoHighBit(w)
    ensures IsLowered(Unpack(w), Unpack(LowerWord(w)))
  {
    hide HasNoHighBit, LowerWord, Unpack, Lower;
    LowBytesAreLowered(w);
    HighBytesAreLowered(w);
  }

  lemma ReversedTwice(b: seq<Byte>)
    requires |b| == 8
    ensures Reversed(Reversed(b)) == b
  {
  }

  lemma ReversedIsLowered(b: seq<Byte>, r: seq<Byte>)
    requires |b| == 8 && IsLowered(b, r)
    ensures IsLowered(Reversed(b), Reversed(r))
  {
    hide Lower;
  }

  // A chunk of ASCII bytes is lowered, whatever the byte order and whatever the other chunks hold.
  lemma ChunkIsLowered(bigEndian: bool, b: seq<Byte>)
    requires |b| <= 8 && AllAscii(b)
    ensures IsLowered(b, LowerChunk(bigEndian, b))
  {
    var r := Store(bigEndian, LowerWord(Word(bigEndian, b)));
    assert IsLowered(Padded(b), r) by {
      hide Pack, Unpack, HasNoHighBit, LowerWord, Padded, Reversed, AllAscii, IsLowered;
      var p := Padded(b);
      var q := if bigEndian then Reversed(p) else p;
      ChunkIsChecked(bigEndian, b);
      UnpackPack(q);
      WordIsLowered(Pack(q));
      if bigEndian {
        ReversedIsLowered(q, Unpack(LowerWord(Pack(q))));
        ReversedTwice(p);
      }
    }
    hide LowerWord, Lower;
    assert forall i | 0 <= i < |b| :: Padded(b)[i] == b[i];
  }

  // What to_lower_ascii makes of a text: chunk after chunk of eight bytes, the last one shorter.
  function LowerText(bigEndian: bool, s: seq<Byte>): (r: seq<Byte>)
    ensures |r| == |s|
  {
    if |s| < 8 then LowerChunk(bigEndian, s)
    else LowerChunk(bigEndian, s[..8]) + LowerText(bigEndian, s[8..])
  }

  // The bytes that share a word with byte i.
  function WordAround(s: seq<Byte>, i: nat): seq<Byte>
    requires i < |s|
  {
    var from := i - i % 8;
    if from + 8 <= |s| then s[from..from + 8] else s[from..]
  }

  lemma WordAroundFirst(s: seq<Byte>, i: nat)
    requires i < |s| && i < 8
    ensures WordAround(s, i) == if |s| < 8 then s else s[..8]
  {
    assert i - i % 8 == 0;
  }

  lemma WordAroundLater(s: seq<Byte>, i: nat)
    requires 8 <= i < |s|
    ensures WordAround(s, i) == WordAround(s[8..], i - 8)
  {
    var from := i - i % 8;
    assert from - 8 == (i - 8) - (i - 8) % 8;
    if from + 8 <= |s| {
      assert s[8..][from - 8..from] == s[from..from + 8];
    } else {
      assert s[8..][from - 8..] == s[from..];
    }
  }

  // A byte is lowered correctly if the bytes of its own word are ASCII.
  lemma {:induction false} TextIsLowered(bigEndian: bool, s: seq<Byte>, i: nat)
    requires i < |s| && AllAscii(WordAround(s, i))
    ensures LowerText(bigEndian, s)[i] == Lower(s[i])
  {
    hide LowerChunk, Lower, AllAscii, WordAround;
    if i < 8 {
      WordAroundFirst(s, i);
      ChunkIsLowered(bigEndian, if |s| < 8 then s else s[..8]);
    } else {
      WordAroundLater(s, i);
      TextIsLowered(bigEndian, s[8..], i - 8);
    }
  }

  lemma AsciiTextIsLowered(bigEndian: bool, s: seq<Byte>)
    requires AllAscii(s)
    ensures IsLowered(s, LowerText(bigEndian, s))
  {
    hide LowerText, Lower, IsAscii, LowerChunk;
    forall i | 0 <= i < |s| ensures LowerText(bigEndian, s)[i] == Lower(s[i]) {
      TextIsLowered(bigEndian, s, i);
    }
  }

  lemma OrIsZero(a: bv64, b: bv64)
    ensures a | b == 0 <==> a == 0 && b == 0
  {
  }

  // memcpy of some bytes into the buffer.
  method CopyBack<T>(input: array<T>, i: nat, bytes: seq<T>)
    requires i + |bytes| <= input.Length
    modifies input
    ensures input[..] == old(input[..i]) + bytes + old(input[i + |bytes|..])
  {
    forall k | 0 <= k < |bytes| {
      input[i + k] := bytes[k];
    }
  }

  // Copies count bytes from i on into a word, lowers them and copies them back. The result has
  // the high bits found.
  method LowerWordInPlace(bigEndian: bool, input: array<Byte>, i: nat, count: nat) returns (high: bv64)
    requires count <= 8 && i + count <= input.Length
    modifies input
    ensures input[..] == old(input[..i]) + LowerChunk(bigEndian, old(input[i..i + count])) + old(input[i + count..])
    ensures high == 0 <==> AllAscii(old(input[i..i + count]))
  {
    hide Word, LowerWord, HighBits, Store, AllAscii;
    var word := Word(bigEndian, input[i..i + count]);
    ChunkIsChecked(bigEndian, input[i..i + count]);
    high := HighBits(word);
    CopyBack(input, i, Store(bigEndian, LowerWord(word))[..count]);
  }

  lemma TextStep(bigEndian: bool, s: seq<Byte>, i: nat)
    requires i + 8 <= |s|
    ensures LowerText(bigEndian, s[i..]) == LowerChunk(bigEndian, s[i..i + 8]) + LowerText(bigEndian, s[i + 8..])
    ensures AllAscii(s[..i + 8]) <==> AllAscii(s[..i]) && AllAscii(s[i..i + 8])
  {
    hide LowerChunk, IsAscii;
    assert s[i..][8..] == s[i + 8..] && s[i..][..8] == s[i..i + 8];
    AsciiConcat(s[..i], s[i..i + 8]);
    assert s[..i + 8] == s[..i] + s[i..i + 8];
  }

  lemma AsciiConcat(a: seq<Byte>, b: seq<Byte>)
    ensures AllAscii(a + b) <==> AllAscii(a) && AllAscii(b)
  {
    hide IsAscii;
    assert forall i | 0 <= i < |a| :: (a + b)[i] == a[i];
    assert forall i | 0 <= i < |b| :: (a + b)[|a| + i] == b[i];
  }

  lemma TextEnd(bigEndian: bool, s: seq<Byte>)
    requires |s| < 8
    ensures LowerText(bigEndian, s) == LowerChunk(bigEndian, s)
    ensures AllAscii([])
  {
  }

  // The loop of to_lower_ascii: bytes before i are done, the others untouched.
  ghost predicate Lowering(bigEndian: bool, s: seq<Byte>, now: seq<Byte>, i: nat, nonAscii: bv64) {
    && i <= |s| == |now| && now[i..] == s[i..]
    && now[..i] + LowerText(bigEndian, s[i..]) == LowerText(bigEndian, s)
    && (nonAscii == 0 <==> AllAscii(s[..i]))
  }

  lemma LoweringStep(
    bigEndian: bool, s: seq<Byte>, before: seq<Byte>, after: seq<Byte>, i: nat, nonAscii: bv64, high: bv64)
    requires Lowering(bigEndian, s, before, i, nonAscii) && i + 8 <= |s|
    requires after == before[..i] + LowerChunk(bigEndian, before[i..i + 8]) + before[i + 8..]
    requires high == 0 <==> AllAscii(before[i..i + 8])
    ensures Lowering(bigEndian, s, after, i + 8, nonAscii | high)
  {
    hide LowerText, LowerChunk, AllAscii;
    assert before[i..i + 8] == before[i..][..8] == s[i..][..8] == s[i..i + 8];
    assert before[i + 8..] == before[i..][8..] == s[i + 8..];
    TextStep(bigEndian, s, i);
    OrIsZero(nonAscii, high);
  }

  lemma LoweringEnd(
    bigEndian: bool, s: seq<Byte>, before: seq<Byte>, after: seq<Byte>, i: nat, nonAscii: bv64, high: bv64)
    requires Lowering(bigEndian, s, before, i, nonAscii) && |s| < i + 8
    requires after == before[..i] + LowerChunk(bigEndian, before[i..])
    requires high == 0 <==> AllAscii(before[i..])
    ensures after == LowerText(bigEndian, s) && (nonAscii | high == 0 <==> AllAscii(s))
  {
    hide LowerText, LowerChunk, AllAscii;
    TextEnd(bigEndian, s[i..]);
    OrIsZero(nonAscii, high);
    AsciiConcat(s[..i], s[i..]);
    assert s[..i] + s[i..] == s;
  }

  // to_lower_ascii. The result says whether every byte was ASCII.
  method ToLowerAscii(bigEndian: bool, input: array<Byte>) returns (ascii: bool)
    modifies input
    ensures ascii <==> AllAscii(old(input[..]))
    ensures ascii ==> IsLowered(old(input[..]), input[..])
    ensures input[..] == LowerText(bigEndian, old(input[..]))
  {
    hide LowerText, LowerChunk, AllAscii, IsLowered;
    ghost var s := input[..];
    var nonAscii: bv64 := 0;
    var i := 0;
    TextEnd(bigEndian, []);
    assert s[0..] == s && s[..0] == [];
    while i + 7 < input.Length
      invariant 0 <= i && Lowering(bigEndian, s, input[..], i, nonAscii)
    {
      hide Lowering;
      ghost var before := input[..];
      var high := LowerWordInPlace(bigEndian, input, i, 8);
      LoweringStep(bigEndian, s, before, input[..], i, nonAscii, high);
      nonAscii := nonAscii | high;
      i := i + 8;
    }
    ghost var before := input[..];
    if i < input.Length {
      assert input[i..i + (input.Length - i)] == before[i..];
      var high := LowerWordInPlace(bigEndian, input, i, input.Length - i);
      LoweringEnd(bigEndian, s, before, input[..], i, nonAscii, high);
      nonAscii := nonAscii | high;
    } else {
      LoweringEnd(bigEndian, s, before, before, i, nonAscii, 0);
    }
    ascii := nonAscii == 0;
    if ascii {
      AsciiTextIsLowered(bigEndian, s);
    }
  }
}
