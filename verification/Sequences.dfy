// Facts about regrouping concatenations.
module Sequences {

  lemma ConcatAssociates<T>(a: seq<T>, b: seq<T>, c: seq<T>)
    ensures a + (b + c) == (a + b) + c
  {
  }

  lemma Regroup<T>(a: seq<T>, b: seq<T>, c: seq<T>, d: seq<T>)
    requires d != []
    ensures a + (b + c + d) == (a + b) + c + [d[0]] + d[1..]
    ensures a + (b + [d[0]] + c + d[1..]) == (a + b) + [d[0]] + c + d[1..]
  {
  }

  lemma Regroup4<T>(a: seq<T>, b: seq<T>, c: seq<T>, d: seq<T>)
    ensures (a + b) + (c + d) == a + ((b + c) + d)
  {
  }

  lemma HeadOfConcat<T>(a: seq<T>, b: seq<T>)
    requires a != []
    ensures a == [a[0]] + a[1..]
    ensures a + b == [a[0]] + (a[1..] + b)
  {
  }

  lemma TwoHeads<T>(a: seq<T>)
    requires |a| > 1
    ensures a == [a[0]] + ([a[1]] + a[2..])
    ensures a[1..] == [a[1]] + a[2..]
    ensures a[1..][1..] == a[2..]
  {
  }

  lemma CutTail<T>(s: seq<T>, i: nat, end: nat)
    requires i <= end <= |s|
    ensures s[i..] == s[i..end] + s[end..]
    ensures end < |s| ==> s[end..] == [s[end]] + s[end + 1..]
  {
  }

  lemma HeadOfSlice<T>(s: seq<T>, i: nat)
    requires i < |s|
    ensures s[i..i + 1] == [s[i]]
  {
  }

  lemma PutTwo<T>(s: seq<T>, i: nat, x: T, y: T)
    requires i + 2 <= |s|
    ensures s[i := x][i + 1 := y][..i + 2] == s[..i] + [x, y]
    ensures s[i := x][i + 1 := y][i + 2..] == s[i + 2..]
  {
  }

  // A tail written as two parts names both slices.
  lemma SliceOfConcat<T>(s: seq<T>, i: nat, a: seq<T>, b: seq<T>)
    requires i <= |s| && s[i..] == a + b
    ensures i + |a| <= |s| && s[i..i + |a|] == a && s[i + |a|..] == b
  {
    assert |s[i..]| == |a| + |b|;
    assert s[i..i + |a|] == s[i..][..|a|];
    assert s[i + |a|..] == s[i..][|a|..];
  }
}
