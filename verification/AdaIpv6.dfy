// The Ada serializer: the address in brackets, with the leftmost longest run of at least two
// zero groups left out (section 4 of RFC 5952).
module AdaIpv6 {
  import opened Ipv4
  import opened Ipv4Routines
  import opened Ipv6Text
  import opened Ipv6Grammar
  import opened Ipv6Printing

  lemma LeftmostLongestIsUnique(g: Groups, at1: int, n1: int, at2: int, n2: int)
    requires IsLeftmostLongest(g, at1, n1) && IsLeftmostLongest(g, at2, n2)
    ensures n1 == n2 && (n1 > 0 ==> at1 == at2)
  {
  }

  // The text between the brackets when the longest run is the n groups from at on.
  function Compressed(g: Groups, at: int, n: int): string
    requires n == 0 || IsZeroRun(g, at, n)
  {
    Text(CompressedForm(g, at, if n <= 1 then 0 else n))
  }

  // s is the text of the address with exactly the leftmost longest run left out, if it has two groups.
  ghost predicate IsAdaText(g: Groups, s: string) {
    exists at, n :: IsLeftmostLongest(g, at, n) && s == Compressed(g, at, n)
  }

  lemma AdaTextIsUnique(g: Groups, s: string, r: string)
    requires IsAdaText(g, s) && IsAdaText(g, r)
    ensures s == r
  {
    hide CompressedForm, Text;
    var at1, n1 :| IsLeftmostLongest(g, at1, n1) && s == Compressed(g, at1, n1);
    var at2, n2 :| IsLeftmostLongest(g, at2, n2) && r == Compressed(g, at2, n2);
    LeftmostLongestIsUnique(g, at1, n1, at2, n2);
    assert n1 <= 1 ==> CompressedForm(g, at1, 0) == CompressedForm(g, at2, 0) by {
      NothingLeftOut(g, at1, at2);
    }
  }

  lemma NothingLeftOut(g: Groups, at1: int, at2: int)
    ensures CompressedForm(g, at1, 0) == CompressedForm(g, at2, 0)
  {
  }

  // Groups are written without leading zeros.
  lemma {:induction false} NoLeadingZero(n: nat)
    ensures n > 0 ==> HexText(n)[0] != '0'
    ensures n == 0 ==> HexText(n) == "0"
  {
    if n >= 16 {
      NoLeadingZero(n / 16);
    }
  }

  // Parsing the text between the brackets gives the address back.
  lemma ParseOfAdaText(o: seq<Octet>, s: string)
    requires |o| == 16
    ensures IsAdaText(GroupsOf(o), s) ==> Parse6(s) == Parsed6(Valid6, o)
  {
    hide CompressedForm, Text, IsForm, Value, GroupsOf;
    var g := GroupsOf(o);
    if IsAdaText(g, s) {
      var at, n :| IsLeftmostLongest(g, at, n) && s == Compressed(g, at, n);
      var m := if n <= 1 then 0 else n;
      CompressedFormValue(o, at, m);
      FormIsAccepted(CompressedForm(g, at, m));
    }
  }

  // find_longest_sequence_of_ipv6_pieces
  method FindLongestSequence(address: Groups) returns (compress: nat, compressLength: nat)
    ensures IsLeftmostLongest(address, compress, compressLength)
  {
    compress, compressLength := 0, 0;
    var i := 0;
    while i < 8
      invariant 0 <= i <= 9
      invariant compressLength == 0 || (IsZeroRun(address, compress, compressLength) && compress < i)
      invariant forall s, k | IsZeroRun(address, s, k) && s < i ::
                  k < compressLength || (k == compressLength && compress <= s)
      decreases 9 - i
    {
      if address[i] == 0 {
        var next := i + 1;
        while next != 8 && address[next] == 0
          invariant i < next <= 8 && IsZeroRun(address, i, next - i)
        {
          next := next + 1;
        }
        var count := next - i;
        RunsWithin(address, i, next);
        if compressLength < count {
          compressLength := count;
          compress := i;
          if next == 8 {
            break;
          }
          i := next;
        }
      }
      i := i + 1;
    }
  }

  // The runs that start between i and next do not pass next.
  lemma RunsWithin(g: Groups, i: int, next: int)
    requires 0 <= i < next <= 8 && (next < 8 ==> g[next] != 0)
    ensures forall s, k | IsZeroRun(g, s, k) && i <= s <= next :: s + k <= next
  {
  }

  // std::to_chars in base 16
  method ToCharsHex(n: nat, out: array<char>, at: nat) returns (next: nat)
    requires n < 0x1_0000 && at + 4 <= out.Length
    modifies out
    ensures at < next <= at + 4 && out[..next] == old(out[..at]) + HexText(n)
  {
    HexTextLength(n);
    next := at;
    var digits := HexText(n);
    for i := 0 to |digits|
      invariant next == at + i && out[..next] == old(out[..at]) + digits[..i]
    {
      next := Put(out, next, digits[i]);
    }
    assert digits[..|digits|] == digits;
  }

  // What is still to be written before piece i, the second colon of a leading gap included.
  function Ahead(t: seq<string>, at: int, n: int, i: nat): string
    requires |t| == 8 && (n == 0 || (0 <= at && 0 < n && at + n <= 8)) && i <= 8
  {
    (if n > 0 && at == 0 && i == 0 then ":" else "") + TailText(t, at, n, i)
  }

  // Writing the gap.
  lemma GapWritten(t: seq<string>, at: int, n: int, before: string, after: string)
    requires |t| == 8 && 0 <= at && 0 < n && at + n <= 8
    requires after == before + (if at == 0 then "::" else ":")
    ensures after + TailText(t, at, n, at + n) == before + Ahead(t, at, n, at)
  {
    hide TailText;
    TailGap(t, at, n);
  }

  // Writing a piece, and a colon unless it is the last.
  lemma PieceWritten(t: seq<string>, at: int, n: int, i: nat, before: string, after: string)
    requires |t| == 8 && (n == 0 || (0 <= at && 0 < n && at + n <= 8 && (i < at || at + n <= i))) && i < 8
    requires after == before + t[i] + (if i != 7 then ":" else "")
    ensures after + Ahead(t, at, n, i + 1) == before + TailText(t, at, n, i)
    ensures n > 0 && at == 0 ==> i > 0
  {
    hide TailText;
    TailGroup(t, at, n, i);
  }

  method PutGap(leading: bool, out: array<char>, at: nat) returns (next: nat)
    requires at + 2 <= out.Length
    modifies out
    ensures next == at + (if leading then 2 else 1)
    ensures out[..next] == old(out[..at]) + (if leading then "::" else ":")
  {
    next := Put(out, at, ':');
    if leading {
      next := Put(out, next, ':');
    }
  }

  // The loop of ipv6: at and n are the run that is left out, n being 0 if there is none.
  method PutPieces(
    address: Groups, compress: nat, compressLength: nat, ghost at: int, ghost n: int, out: array<char>, start: nat)
    returns (point: nat)
    requires if n == 0 then compress == 8 else compress == at && compressLength == n && 0 <= at && 0 < n && at + n <= 8
    requires start + 40 <= out.Length
    modifies out
    ensures start <= point <= start + 39
    ensures out[..point] == old(out[..start]) + Ahead(HexTexts(address), at, n, 0)
  {
    hide TailText, HexText, Ahead;
    ghost var t := HexTexts(address);
    ghost var goal := out[..start] + Ahead(t, at, n, 0);
    var pieceIndex := 0;
    point := start;
    while true
      invariant 0 <= pieceIndex < 8 && start <= point <= start + 5 * pieceIndex
      invariant n == 0 || pieceIndex <= at || at + n <= pieceIndex
      invariant out[..point] + Ahead(t, at, n, pieceIndex) == goal
      decreases 8 - pieceIndex
    {
      ghost var before := out[..point];
      if pieceIndex == compress {
        point := PutGap(pieceIndex == 0, out, point);
        GapWritten(t, at, n, before, out[..point]);
        pieceIndex := pieceIndex + compressLength;
        if pieceIndex == 8 {
          break;
        }
      } else {
        AheadIsTail(t, at, n, pieceIndex);
      }
      before := out[..point];
      point := ToCharsHex(address[pieceIndex], out, point);
      ghost var i := pieceIndex;
      pieceIndex := pieceIndex + 1;
      if pieceIndex == 8 {
        PieceWritten(t, at, n, i, before, out[..point]);
        AheadIsTail(t, at, n, 8);
        break;
      }
      point := Put(out, point, ':');
      PieceWritten(t, at, n, i, before, out[..point]);
    }
    TailEnd(t, at, n);
  }

  lemma AheadIsTail(t: seq<string>, at: int, n: int, i: nat)
    requires |t| == 8 && (n == 0 || (0 <= at && 0 < n && at + n <= 8)) && i <= 8
    requires n == 0 || i != at
    ensures Ahead(t, at, n, i) == TailText(t, at, n, i)
  {
  }

  // ipv6
  method Ipv6(address: Groups) returns (output: string)
    ensures 2 <= |output| <= 41
    ensures output[0] == '[' && output[|output| - 1] == ']' && IsAdaText(address, output[1..|output| - 1])
  {
    hide HexTexts, Ahead, TailText, Text, CompressedForm;
    var compress, compressLength := FindLongestSequence(address);
    ghost var text := Compressed(address, compress, compressLength);
    ghost var at, n := compress, if compressLength <= 1 then 0 else compressLength;
    assert IsAdaText(address, text);
    AheadStart(address, at, n);
    if compressLength <= 1 {
      compress, compressLength := 8, 8;
    }
    var out := new char[4 * 8 + 7 + 2];
    var point := Put(out, 0, '[');
    assert out[..point] == "[";
    point := PutPieces(address, compress, compressLength, at, n, out, point);
    point := Put(out, point, ']');
    output := out[..point];
    assert output == "[" + text + "]";
    assert output[1..|output| - 1] == text;
  }

  lemma AheadStart(g: Groups, at: int, n: int)
    requires n == 0 || (0 <= at && 0 < n && at + n <= 8)
    ensures Text(CompressedForm(g, at, n)) == Ahead(HexTexts(g), at, n, 0)
  {
    hide Text, CompressedForm, TailText;
    TailStart(g, at, n);
  }
}
