// The search for the next ':', '/', '?' or '[' eight bytes at a time.
module HostDelimiter {
  import opened Words

  predicate IsDelimiter(c: Byte) {
    c == 0x3A || c == 0x2F || c == 0x3F || c == 0x5B
  }

  lemma DelimitersAre(c: Byte)
    ensures IsDelimiter(c) <==> c as int as char in ":/?["
  {
    var s := ":/?[";
    assert s[0] as int == 0x3A && s[1] as int == 0x2F && s[2] as int == 0x3F && s[3] as int == 0x5B;
  }

  function HasZeroByte(v: bv64): bv64 {
    (v - ONES) & !v & HIGH_BITS
  }

  function IndexOfFirstSetByte(v: bv64): bv64 {
    ((((v - 1) & ONES) * ONES) >> 56) - 1
  }

  function FirstFlag(m: bv64): nat {
    IndexOfFirstSetByte(m) as nat
  }

  // The high bit of each byte that equals one of the four delimiters, and perhaps of later ones.
  function Matches(word: bv64): bv64 {
    HasZeroByte(word ^ Broadcast(0x3A)) | HasZeroByte(word ^ Broadcast(0x2F))
    | HasZeroByte(word ^ Broadcast(0x3F)) | HasZeroByte(word ^ Broadcast(0x5B))
  }

  // r is the place of the first delimiter in b, or |b| if there is none.
  ghost predicate IsFirst(b: seq<Byte>, r: nat) {
    && r <= |b|
    && (forall j | 0 <= j < r :: !IsDelimiter(b[j]))
    && (r < |b| ==> IsDelimiter(b[r]))
  }

  // Some delimiter agrees with the word under the mask.
  predicate AgreesUnder(w: bv64, mask: bv64) {
    || (w ^ 0x3A3A_3A3A_3A3A_3A3A) & mask == 0 || (w ^ 0x2F2F_2F2F_2F2F_2F2F) & mask == 0
    || (w ^ 0x3F3F_3F3F_3F3F_3F3F) & mask == 0 || (w ^ 0x5B5B_5B5B_5B5B_5B5B) & mask == 0
  }

  lemma LowBytesAgree(w: bv64)
    ensures var b := Unpack(w);
            && (IsDelimiter(b[0]) <==> AgreesUnder(w, 0xFF))
            && (IsDelimiter(b[1]) <==> AgreesUnder(w, 0xFF00))
            && (IsDelimiter(b[2]) <==> AgreesUnder(w, 0xFF_0000))
            && (IsDelimiter(b[3]) <==> AgreesUnder(w, 0xFF00_0000))
  {
  }

  lemma HighBytesAgree(w: bv64)
    ensures var b := Unpack(w);
            && (IsDelimiter(b[4]) <==> AgreesUnder(w, 0xFF_0000_0000))
            && (IsDelimiter(b[5]) <==> AgreesUnder(w, 0xFF00_0000_0000))
            && (IsDelimiter(b[6]) <==> AgreesUnder(w, 0xFF_0000_0000_0000))
            && (IsDelimiter(b[7]) <==> AgreesUnder(w, 0xFF00_0000_0000_0000))
  {
  }

  // A borrow in has_zero_byte runs upwards only, so it never disturbs the first true hit, in
  // any of the four masks; and the multiplication then counts the bytes below that hit.
  lemma FirstHit0(w: bv64)
    requires AgreesUnder(w, 0xFF)
    ensures Matches(w) != 0 && FirstFlag(Matches(w)) == 0
  {
  }

  lemma FirstHit1(w: bv64)
    requires !AgreesUnder(w, 0xFF) && AgreesUnder(w, 0xFF00)
    ensures Matches(w) != 0 && FirstFlag(Matches(w)) == 1
  {
  }

  lemma FirstHit2(w: bv64)
    requires !AgreesUnder(w, 0xFF) && !AgreesUnder(w, 0xFF00) && AgreesUnder(w, 0xFF_0000)
    ensures Matches(w) != 0 && FirstFlag(Matches(w)) == 2
  {
  }

  lemma FirstHit3(w: bv64)
    requires !AgreesUnder(w, 0xFF) && !AgreesUnder(w, 0xFF00) && !AgreesUnder(w, 0xFF_0000)
    requires AgreesUnder(w, 0xFF00_0000)
    ensures Matches(w) != 0 && FirstFlag(Matches(w)) == 3
  {
  }

  lemma FirstHit4(w: bv64)
    requires !AgreesUnder(w, 0xFF) && !AgreesUnder(w, 0xFF00) && !AgreesUnder(w, 0xFF_0000)
    requires !AgreesUnder(w, 0xFF00_0000) && AgreesUnder(w, 0xFF_0000_0000)
    ensures Matches(w) != 0 && FirstFlag(Matches(w)) == 4
  {
  }

  lemma FirstHit5(w: bv64)
    requires !AgreesUnder(w, 0xFF) && !AgreesUnder(w, 0xFF00) && !AgreesUnder(w, 0xFF_0000)
    requires !AgreesUnder(w, 0xFF00_0000) && !AgreesUnder(w, 0xFF_0000_0000) && AgreesUnder(w, 0xFF00_0000_0000)
    ensures Matches(w) != 0 && FirstFlag(Matches(w)) == 5
  {
  }

  lemma FirstHit6(w: bv64)
    requires !AgreesUnder(w, 0xFF) && !AgreesUnder(w, 0xFF00) && !AgreesUnder(w, 0xFF_0000)
    requires !AgreesUnder(w, 0xFF00_0000) && !AgreesUnder(w, 0xFF_0000_0000) && !AgreesUnder(w, 0xFF00_0000_0000)
    requires AgreesUnder(w, 0xFF_0000_0000_0000)
    ensures Matches(w) != 0 && FirstFlag(Matches(w)) == 6
  {
  }

  lemma FirstHit7(w: bv64)
    requires !AgreesUnder(w, 0xFF) && !AgreesUnder(w, 0xFF00) && !AgreesUnder(w, 0xFF_0000)
    requires !AgreesUnder(w, 0xFF00_0000) && !AgreesUnder(w, 0xFF_0000_0000) && !AgreesUnder(w, 0xFF00_0000_0000)
    requires !AgreesUnder(w, 0xFF_0000_0000_0000) && AgreesUnder(w, 0xFF00_0000_0000_0000)
    ensures Matches(w) != 0 && FirstFlag(Matches(w)) == 7
  {
  }

  lemma NoHit(w: bv64)
    requires !AgreesUnder(w, 0xFF) && !AgreesUnder(w, 0xFF00) && !AgreesUnder(w, 0xFF_0000)
    requires !AgreesUnder(w, 0xFF00_0000) && !AgreesUnder(w, 0xFF_0000_0000) && !AgreesUnder(w, 0xFF00_0000_0000)
    requires !AgreesUnder(w, 0xFF_0000_0000_0000) && !AgreesUnder(w, 0xFF00_0000_0000_0000)
    ensures Matches(w) == 0
  {
  }

  // The word is searched correctly: no match, or the place of the first delimiter.
  lemma MatchesFindFirst(w: bv64, r: nat)
    requires IsFirst(Unpack(w), r)
    ensures r == 8 ==> Matches(w) == 0
    ensures r < 8 ==> Matches(w) != 0 && FirstFlag(Matches(w)) == r
  {
    hide Unpack, Matches, FirstFlag, AgreesUnder, IsDelimiter;
    LowBytesAgree(w);
    HighBytesAgree(w);
    var b := Unpack(w);
    assert r > 0 ==> !IsDelimiter(b[0]);
    assert r > 1 ==> !IsDelimiter(b[1]);
    assert r > 2 ==> !IsDelimiter(b[2]);
    assert r > 3 ==> !IsDelimiter(b[3]);
    assert r > 4 ==> !IsDelimiter(b[4]);
    assert r > 5 ==> !IsDelimiter(b[5]);
    assert r > 6 ==> !IsDelimiter(b[6]);
    assert r > 7 ==> !IsDelimiter(b[7]);
    if r == 0 {
      FirstHit0(w);
    } else if r == 1 {
      FirstHit1(w);
    } else if r == 2 {
      FirstHit2(w);
    } else if r == 3 {
      FirstHit3(w);
    } else if r == 4 {
      FirstHit4(w);
    } else if r == 5 {
      FirstHit5(w);
    } else if r == 6 {
      FirstHit6(w);
    } else if r == 7 {
      FirstHit7(w);
    } else {
      NoHit(w);
    }
  }

  lemma FirstExists(b: seq<Byte>) returns (r: nat)
    ensures IsFirst(b, r)
  {
    r := 0;
    while r < |b| && !IsDelimiter(b[r])
      invariant r <= |b| && forall j | 0 <= j < r :: !IsDelimiter(b[j])
    {
      r := r + 1;
    }
  }

  // The word as the program sees it after any swap.
  function SwappedWord(bigEndian: bool, b: seq<Byte>): bv64
    requires |b| <= 8
  {
    SwapBytesIfBigEndian(bigEndian, Word(bigEndian, b))
  }

  // What one word says about the bytes it was loaded from.
  ghost predicate Answers(m: bv64, b: seq<Byte>) {
    && (m == 0 ==> forall j | 0 <= j < |b| && j < 8 :: !IsDelimiter(b[j]))
    && (m != 0 ==> FirstFlag(m) < |b| && IsFirst(b, FirstFlag(m)))
  }

  // The zeros that pad the last word are never taken for a delimiter.
  lemma WordIsSearched(bigEndian: bool, b: seq<Byte>)
    requires |b| <= 8
    ensures Answers(Matches(SwappedWord(bigEndian, b)), b)
  {
    hide Pack, Unpack, Load, SwapBytes, Matches, FirstFlag;
    var w, p := SwappedWord(bigEndian, b), Padded(b);
    SwapMakesLittleEndian(bigEndian, p);
    UnpackPack(p);
    var r := FirstExists(p);
    MatchesFindFirst(w, r);
    assert forall j | 0 <= j < |b| && j < 8 :: p[j] == b[j];
    assert forall j | |b| <= j < 8 :: p[j] == 0;
  }

  // find_next_host_delimiter: the first delimiter at or after location, or the size of the text.
  method FindNextHostDelimiter(bigEndian: bool, view: seq<Byte>, location: nat) returns (r: nat)
    ensures r <= |view|
    ensures r < |view| ==> location <= r && IsDelimiter(view[r])
    ensures forall k | location <= k < r :: !IsDelimiter(view[k])
  {
    hide Matches, FirstFlag, SwappedWord;
    var i := location;
    while i + 7 < |view|
      invariant location <= i && (i <= |view| || i == location)
      invariant forall k | location <= k < i && k < |view| :: !IsDelimiter(view[k])
    {
      ghost var b := view[i..i + 8];
      var isMatch := Matches(SwappedWord(bigEndian, view[i..i + 8]));
      WordIsSearched(bigEndian, b);
      assert forall k | i <= k < i + 8 :: view[k] == b[k - i];
      if isMatch != 0 {
        return i + FirstFlag(isMatch);
      }
      i := i + 8;
    }
    if i < |view| {
      ghost var b := view[i..];
      var isMatch := Matches(SwappedWord(bigEndian, view[i..]));
      WordIsSearched(bigEndian, b);
      assert forall k | i <= k < |view| :: view[k] == b[k - i];
      if isMatch != 0 {
        return i + FirstFlag(isMatch);
      }
    }
    return |view|;
  }
}
