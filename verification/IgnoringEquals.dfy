// Three comparisons that ignore case and the characters tab, carriage return and line feed,
// against one specification.
module IgnoringEquals {

  function ToLowerCopy(ch: char): char {
    if 'A' <= ch <= 'Z' then (ch as int + 32) as char else ch
  }

  predicate IsSpecial(ch: char) {
    ch == '\t' || ch == '\r' || ch == '\n'
  }

  // The text without its special characters, in lower case.
  function Normal(s: string): string {
    if s == [] then []
    else if IsSpecial(s[0]) then Normal(s[1..])
    else [ToLowerCopy(s[0])] + Normal(s[1..])
  }

  // What becomes of each single character, and that a text is treated character by character.
  lemma NormalOfOne(c: char)
    ensures 'A' <= c <= 'Z' ==> Normal([c]) == [('a' as int + (c as int - 'A' as int)) as char]
    ensures c in {'\t', '\r', '\n'} ==> Normal([c]) == []
    ensures !('A' <= c <= 'Z') && c !in {'\t', '\r', '\n'} ==> Normal([c]) == [c]
  {
    assert [c][1..] == [];
    assert Normal([c]) == if IsSpecial(c) then [] else [ToLowerCopy(c)] + [];
  }

  lemma {:induction false} NormalConcat(a: string, b: string)
    ensures Normal(a + b) == Normal(a) + Normal(b)
  {
    hide ToLowerCopy, IsSpecial;
    if a == [] {
      assert [] + b == b;
    } else {
      NormalConcat(a[1..], b);
      assert (a + b)[1..] == a[1..] + b;
    }
  }

  ghost predicate EndsInSpecial(s: string) {
    s != [] && IsSpecial(s[|s| - 1])
  }

  ghost predicate AllSpecial(s: string) {
    forall i | 0 <= i < |s| :: IsSpecial(s[i])
  }

  lemma {:induction false} NormalOfSpecial(s: string)
    ensures Normal(s) == [] <==> AllSpecial(s)
  {
    if s == [] {
    } else {
      NormalOfSpecial(s[1..]);
      assert AllSpecial(s) <==> IsSpecial(s[0]) && AllSpecial(s[1..]) by {
        assert forall i | 0 <= i < |s[1..]| :: s[1..][i] == s[i + 1];
      }
    }
  }

  lemma LowerOfSpecial(a: char, b: char)
    requires IsSpecial(a) && ToLowerCopy(a) == ToLowerCopy(b)
    ensures a == b
  {
  }

  // Whether two texts are equal is decided by their first characters that are not special.
  lemma NormalHeads(l: string, r: string)
    requires l != [] && r != [] && !IsSpecial(l[0]) && !IsSpecial(r[0])
    ensures Normal(l) == Normal(r) <==>
            ToLowerCopy(l[0]) == ToLowerCopy(r[0]) && Normal(l[1..]) == Normal(r[1..])
  {
    hide ToLowerCopy;
    var a, b := Normal(l), Normal(r);
    assert a[0] == ToLowerCopy(l[0]) && a[1..] == Normal(l[1..]);
    assert b[0] == ToLowerCopy(r[0]) && b[1..] == Normal(r[1..]);
  }

  lemma SkipOne(s: string, i: nat)
    requires i < |s| && IsSpecial(s[i])
    ensures Normal(s[i..]) == Normal(s[i + 1..])
  {
    assert s[i..][1..] == s[i + 1..];
  }

  lemma CompareOne(l: string, i: nat, r: string, j: nat)
    requires i < |l| && j < |r| && !IsSpecial(l[i]) && !IsSpecial(r[j])
    ensures Normal(l[i..]) == Normal(r[j..]) <==>
            ToLowerCopy(l[i]) == ToLowerCopy(r[j]) && Normal(l[i + 1..]) == Normal(r[j + 1..])
  {
    hide Normal, ToLowerCopy;
    assert l[i..][1..] == l[i + 1..] && r[j..][1..] == r[j + 1..];
    NormalHeads(l[i..], r[j..]);
  }

  lemma RestIsEmpty(s: string, i: nat)
    requires i <= |s| && (i < |s| ==> !IsSpecial(s[i]))
    ensures Normal(s[i..]) == [] <==> i == |s|
  {
    hide ToLowerCopy;
  }

  // ---------- test::iiequals ----------

  method SkipSpecial(s: string, from: nat) returns (to: nat)
    requires from <= |s|
    ensures from <= to <= |s| && Normal(s[to..]) == Normal(s[from..])
    ensures to < |s| ==> !IsSpecial(s[to])
  {
    to := from;
    while to != |s| && IsSpecial(s[to])
      invariant from <= to <= |s| && Normal(s[to..]) == Normal(s[from..])
    {
      assert s[to..][1..] == s[to + 1..];
      to := to + 1;
    }
  }

  // Correct unless exactly one of the two texts is empty: then the loop is never entered, and
  // special characters in the other are not skipped. The chunk size plays no part.
  method IiequalsChunked(lhs: string, rhs: string, chunkSize: nat) returns (equal: bool)
    requires chunkSize > 0
    ensures equal <==> Normal(lhs) == Normal(rhs) && (lhs == [] <==> rhs == [])
  {
    hide Normal, ToLowerCopy;
    var l, r := 0, 0;
    assert lhs[0..] == lhs && rhs[0..] == rhs;
    while l != |lhs| && r != |rhs|
      invariant 0 <= l <= |lhs| && 0 <= r <= |rhs|
      invariant Normal(lhs) == Normal(rhs) <==> Normal(lhs[l..]) == Normal(rhs[r..])
      invariant (l == 0 && r == 0) || ((l < |lhs| ==> !IsSpecial(lhs[l])) && (r < |rhs| ==> !IsSpecial(rhs[r])))
      invariant (l == 0 && r == 0) || (lhs != [] && rhs != [])
      decreases |lhs| - l + |rhs| - r
    {
      ghost var before := |lhs| - l + |rhs| - r;
      var i := 0;
      while i < chunkSize
        invariant 0 <= l <= |lhs| && 0 <= r <= |rhs|
        invariant Normal(lhs) == Normal(rhs) <==> Normal(lhs[l..]) == Normal(rhs[r..])
        invariant lhs != [] && rhs != [] && (i == 0 ==> l < |lhs| && r < |rhs|)
        invariant |lhs| - l + |rhs| - r <= before && (i > 0 ==> |lhs| - l + |rhs| - r < before)
        decreases chunkSize - i
      {
        if l == |lhs| || r == |rhs| {
          break;
        }
        i := i + 1;
        if IsSpecial(lhs[l]) {
          SkipOne(lhs, l);
          l := l + 1;
          continue;
        }
        if IsSpecial(rhs[r]) {
          SkipOne(rhs, r);
          r := r + 1;
          continue;
        }
        CompareOne(lhs, l, rhs, r);
        if ToLowerCopy(lhs[l]) != ToLowerCopy(rhs[r]) {
          return false;
        }
        l := l + 1;
        r := r + 1;
      }
      l := SkipSpecial(lhs, l);
      r := SkipSpecial(rhs, r);
    }
    if l > 0 || r > 0 {
      RestIsEmpty(lhs, l);
      RestIsEmpty(rhs, r);
    }
    return l == |lhs| && r == |rhs|;
  }

  // Equal by the specification, not by this comparison.
  lemma ChunkedFails()
    ensures var lhs, rhs := "", "\t"; Normal(lhs) == Normal(rhs) && lhs == [] && rhs != []
  {
  }

  // ---------- test2::iiequals ----------

  // Correct unless one of the texts ends in a special character: the loop stops as soon as
  // either text does, and what is left of the other is not looked at.
  method IiequalsSkipping(lhs: string, rhs: string) returns (equal: bool)
    ensures equal <==> Normal(lhs) == Normal(rhs) && !EndsInSpecial(lhs) && !EndsInSpecial(rhs)
  {
    var l, r := 0, 0;
    assert lhs[0..] == lhs && rhs[0..] == rhs;
    while l != |lhs| && r != |rhs|
      invariant 0 <= l <= |lhs| && 0 <= r <= |rhs|
      invariant Normal(lhs) == Normal(rhs) <==> Normal(lhs[l..]) == Normal(rhs[r..])
      invariant l == |lhs| && EndsInSpecial(lhs) ==> r < |rhs|
      invariant r == |rhs| && EndsInSpecial(rhs) ==> l < |lhs|
      decreases |lhs| - l + |rhs| - r
    {
      if IsSpecial(lhs[l]) {
        SkipOne(lhs, l);
        l := l + 1;
        continue;
      }
      if IsSpecial(rhs[r]) {
        SkipOne(rhs, r);
        r := r + 1;
        continue;
      }
      CompareOne(lhs, l, rhs, r);
      if ToLowerCopy(lhs[l]) != ToLowerCopy(rhs[r]) {
        return false;
      }
      l := l + 1;
      r := r + 1;
    }
    NormalOfSpecial(lhs[l..]);
    NormalOfSpecial(rhs[r..]);
    LastOfRest(lhs, l);
    LastOfRest(rhs, r);
    return l == |lhs| && r == |rhs|;
  }

  // A text that this comparison does not find equal to itself.
  lemma SkippingFails()
    ensures EndsInSpecial("a\t")
  {
  }

  lemma LastOfRest(s: string, i: nat)
    requires i <= |s|
    ensures i < |s| && AllSpecial(s[i..]) ==> EndsInSpecial(s)
  {
    if i < |s| && AllSpecial(s[i..]) {
      assert s[i..][|s| - 1 - i] == s[|s| - 1];
    }
  }

  // ---------- test3::iiequals ----------

  // The special characters at the end of a text.
  ghost function Trail(s: string): string {
    if AllSpecial(s) then s else Trail(s[1..])
  }

  // y can be had from x by leaving characters out.
  predicate IsSubsequence(y: string, x: string) {
    || y == []
    || (x != [] && (IsSubsequence(y, x[1..]) || (x[0] == y[0] && IsSubsequence(y[1..], x[1..]))))
  }

  // y can be had from x by leaving characters out, but not without the last one of x.
  predicate Cancels(x: string, y: string) {
    || (x == [] && y == [])
    || (x != [] && IsSubsequence(y, x) && !IsSubsequence(y, x[..|x| - 1]))
  }

  lemma {:induction false} SubsequenceTail(y: string, x: string)
    requires y != [] && IsSubsequence(y, x)
    ensures IsSubsequence(y[1..], x)
    decreases |x|
  {
    if IsSubsequence(y, x[1..]) {
      SubsequenceTail(y, x[1..]);
    }
  }

  // Where the first characters agree, matching them loses nothing.
  lemma SubsequenceStep(y: string, x: string)
    requires x != [] && y != []
    ensures IsSubsequence(y, x) <==> IsSubsequence(if x[0] == y[0] then y[1..] else y, x[1..])
  {
    if IsSubsequence(y, x[1..]) {
      SubsequenceTail(y, x[1..]);
    }
  }

  lemma CancelsStep(x: string, y: string)
    requires x != [] && y != []
    ensures Cancels(x, y) <==> Cancels(x[1..], if x[0] == y[0] then y[1..] else y)
  {
    var rest := if x[0] == y[0] then y[1..] else y;
    SubsequenceStep(y, x);
    if |x| > 1 {
      var front := x[..|x| - 1];
      SubsequenceStep(y, front);
      assert front[1..] == x[1..][..|x[1..]| - 1];
    } else {
      assert x[1..] == [] && x[..0] == [];
    }
  }

  // What test3 computes, from here to the end of both texts.
  function Greedy(l: string, r: string): bool
    decreases |l| + |r|
  {
    if l == [] || r == [] then l == [] && r == []
    else if ToLowerCopy(l[0]) == ToLowerCopy(r[0]) then Greedy(l[1..], r[1..])
    else if IsSpecial(l[0]) then Greedy(l[1..], r)
    else if IsSpecial(r[0]) then Greedy(l, r[1..])
    else false
  }

  lemma SpecialTail(s: string)
    requires s != []
    ensures AllSpecial(s) <==> IsSpecial(s[0]) && AllSpecial(s[1..])
    ensures Trail(s) == if AllSpecial(s) then s else Trail(s[1..])
    ensures AllSpecial(s[1..]) ==> Trail(s[1..]) == s[1..]
  {
    assert forall i | 0 <= i < |s[1..]| :: s[1..][i] == s[i + 1];
  }

  lemma {:induction false} GreedyIs(l: string, r: string)
    ensures Greedy(l, r) <==> Normal(l) == Normal(r) && Cancels(Trail(l), Trail(r))
    decreases |l| + |r|
  {
    hide Trail, AllSpecial, ToLowerCopy, Cancels;
    NormalOfSpecial(l);
    NormalOfSpecial(r);
    if l == [] || r == [] {
      GreedyEnds(l, r);
    } else {
      SpecialTail(l);
      SpecialTail(r);
      CancelsStep(l, r);
      if !IsSpecial(l[0]) && !IsSpecial(r[0]) {
        NormalHeads(l, r);
      }
      if ToLowerCopy(l[0]) == ToLowerCopy(r[0]) {
        if IsSpecial(l[0]) {
          LowerOfSpecial(l[0], r[0]);
        } else if IsSpecial(r[0]) {
          LowerOfSpecial(r[0], l[0]);
        }
        GreedyIs(l[1..], r[1..]);
      } else if IsSpecial(l[0]) {
        GreedyIs(l[1..], r);
      } else if IsSpecial(r[0]) {
        GreedyIs(l, r[1..]);
      }
    }
  }

  lemma GreedyEnds(l: string, r: string)
    requires l == [] || r == []
    ensures Greedy(l, r) <==> Normal(l) == Normal(r) && Cancels(Trail(l), Trail(r))
  {
    NormalOfSpecial(l);
    NormalOfSpecial(r);
    assert Trail([]) == [];
  }

  lemma {:induction false} NoTrail(s: string)
    ensures Trail(s) == [] <==> !EndsInSpecial(s)
  {
    if s == [] {
    } else {
      if AllSpecial(s) {
        assert IsSpecial(s[|s| - 1]);
      } else if |s| == 1 {
        assert s[1..] == [];
        assert Trail([]) == [];
      } else {
        NoTrail(s[1..]);
      }
    }
  }

  // Equal by the specification, not by this comparison.
  lemma GreedyFails()
    ensures var lhs, rhs := "a\t", "a"; Normal(lhs) == Normal(rhs) && !Cancels(Trail(lhs), Trail(rhs))
  {
    var lhs, rhs := "a\t", "a";
    GreedyIs(lhs, rhs);
    assert lhs[1..] == "\t" && rhs[1..] == [];
    assert Normal("\t") == [] by {
      assert "\t"[1..] == [];
    }
    assert !Greedy("\t", []);
  }

  // Correct when neither text ends in a special character, or when the special characters they
  // end in cancel; a true result is always right.
  method IiequalsGreedy(lhs: string, rhs: string) returns (equal: bool)
    ensures equal <==> Normal(lhs) == Normal(rhs) && Cancels(Trail(lhs), Trail(rhs))
    ensures !EndsInSpecial(lhs) && !EndsInSpecial(rhs) ==> (equal <==> Normal(lhs) == Normal(rhs))
  {
    var l, r := 0, 0;
    GreedyIs(lhs, rhs);
    NoTrail(lhs);
    NoTrail(rhs);
    assert lhs[0..] == lhs && rhs[0..] == rhs;
    while l != |lhs| && r != |rhs|
      invariant 0 <= l <= |lhs| && 0 <= r <= |rhs|
      invariant Greedy(lhs, rhs) == Greedy(lhs[l..], rhs[r..])
      decreases |lhs| - l + |rhs| - r
    {
      assert lhs[l..][1..] == lhs[l + 1..] && rhs[r..][1..] == rhs[r + 1..];
      if ToLowerCopy(lhs[l]) == ToLowerCopy(rhs[r]) {
        l := l + 1;
        r := r + 1;
        continue;
      }
      if lhs[l] == '\t' || lhs[l] == '\r' || lhs[l] == '\n' {
        l := l + 1;
        continue;
      }
      if rhs[r] == '\t' || rhs[r] == '\r' || rhs[r] == '\n' {
        r := r + 1;
        continue;
      }
      return false;
    }
    return l == |lhs| && r == |rhs|;
  }
}
