// Canonical ordering of combining marks (section 3.11 of the Unicode Standard) as a
// function: a stable insertion sort by combining class in which starters are barriers.
module CanonicalOrder {
  import opened UnicodeData

  // Where one backward pass of sort_marks leaves c when the text before it is s.
  function Insert(u: Ucd, s: seq<CodePoint>, c: CodePoint): (r: seq<CodePoint>)
    ensures |r| == |s| + 1
    decreases |s|
  {
    if u.ccc(c) == 0 || s == [] || u.ccc(s[|s| - 1]) <= u.ccc(c) then s + [c]
    else Insert(u, s[..|s| - 1], c) + [s[|s| - 1]]
  }

  function Sort(u: Ucd, s: seq<CodePoint>): (r: seq<CodePoint>)
    ensures |r| == |s|
  {
    if s == [] then [] else Insert(u, Sort(u, s[..|s| - 1]), s[|s| - 1])
  }

  lemma SortSnoc(u: Ucd, s: seq<CodePoint>, c: CodePoint)
    ensures Sort(u, s + [c]) == Insert(u, Sort(u, s), c)
  {
    assert (s + [c])[..|s|] == s;
  }

  // ---------- the result is in canonical order ----------

  lemma {:induction false} InsertKeepsOrder(u: Ucd, s: seq<CodePoint>, c: CodePoint)
    requires InOrder(u, s)
    ensures InOrder(u, Insert(u, s, c))
    ensures var r := Insert(u, s, c); r[|s|] == c || (s != [] && r[|s|] == s[|s| - 1])
    decreases |s|
  {
    if u.ccc(c) == 0 || s == [] || u.ccc(s[|s| - 1]) <= u.ccc(c) {
    } else {
      InsertKeepsOrder(u, s[..|s| - 1], c);
    }
  }

  lemma {:induction false} SortIsInOrder(u: Ucd, s: seq<CodePoint>)
    ensures InOrder(u, Sort(u, s))
  {
    if s == [] {
    } else {
      SortIsInOrder(u, s[..|s| - 1]);
      InsertKeepsOrder(u, Sort(u, s[..|s| - 1]), s[|s| - 1]);
    }
  }

  // Text already in canonical order is left alone.
  lemma {:induction false} SortOfOrdered(u: Ucd, s: seq<CodePoint>)
    requires InOrder(u, s)
    ensures Sort(u, s) == s
  {
    if s == [] {
    } else {
      SortOfOrdered(u, s[..|s| - 1]);
      assert |s| > 1 ==> s[|s| - 2 + 1] == s[|s| - 1];
    }
  }

  // ---------- reordering marks of different classes does not matter ----------

  lemma {:induction false} InsertsCommute(u: Ucd, s: seq<CodePoint>, a: CodePoint, b: CodePoint)
    requires 0 < u.ccc(a) < u.ccc(b)
    ensures Insert(u, Insert(u, s, a), b) == Insert(u, Insert(u, s, b), a)
    decreases |s|
  {
    if s == [] {
      assert [b][..0] == [];
    } else {
      var front, last := s[..|s| - 1], s[|s| - 1];
      assert (s + [b])[..|s|] == s;
      assert (Insert(u, front, a) + [last])[..|s|] == Insert(u, front, a);
      assert (Insert(u, front, b) + [last])[..|s|] == Insert(u, front, b);
      InsertsCommute(u, front, a, b);
      if u.ccc(last) <= u.ccc(a) {
        assert (s + [a])[..|s|] == s;
      }
    }
  }

  // Exchanging two neighbouring marks of different non-zero classes leaves the result unchanged.
  lemma {:induction false} SortIgnoresSwap(u: Ucd, pre: seq<CodePoint>, a: CodePoint, b: CodePoint, v: seq<CodePoint>)
    requires u.ccc(a) != 0 && u.ccc(b) != 0 && u.ccc(a) != u.ccc(b)
    ensures Sort(u, pre + [a, b] + v) == Sort(u, pre + [b, a] + v)
    decreases |v|
  {
    if v == [] {
      assert pre + [a, b] + v == (pre + [a]) + [b] && pre + [b, a] + v == (pre + [b]) + [a];
      SortSnoc(u, pre + [a], b);
      SortSnoc(u, pre, a);
      SortSnoc(u, pre + [b], a);
      SortSnoc(u, pre, b);
      if u.ccc(a) < u.ccc(b) {
        InsertsCommute(u, Sort(u, pre), a, b);
      } else {
        InsertsCommute(u, Sort(u, pre), b, a);
      }
    } else {
      var w, z := v[..|v| - 1], v[|v| - 1];
      SortIgnoresSwap(u, pre, a, b, w);
      assert pre + [a, b] + v == (pre + [a, b] + w) + [z];
      assert pre + [b, a] + v == (pre + [b, a] + w) + [z];
      SortSnoc(u, pre + [a, b] + w, z);
      SortSnoc(u, pre + [b, a] + w, z);
    }
  }

  // ---------- what the order is: a permutation, stable, with starters fixed ----------

  lemma {:induction false} InsertIsPermutation(u: Ucd, s: seq<CodePoint>, c: CodePoint)
    ensures multiset(Insert(u, s, c)) == multiset(s) + multiset{c}
    decreases |s|
  {
    if u.ccc(c) == 0 || s == [] || u.ccc(s[|s| - 1]) <= u.ccc(c) {
    } else {
      InsertIsPermutation(u, s[..|s| - 1], c);
      assert s == s[..|s| - 1] + [s[|s| - 1]];
    }
  }

  lemma {:induction false} SortIsPermutation(u: Ucd, s: seq<CodePoint>)
    ensures multiset(Sort(u, s)) == multiset(s)
  {
    if s == [] {
    } else {
      SortIsPermutation(u, s[..|s| - 1]);
      InsertIsPermutation(u, Sort(u, s[..|s| - 1]), s[|s| - 1]);
      assert s == s[..|s| - 1] + [s[|s| - 1]];
    }
  }

  ghost predicate SameStarters(u: Ucd, s: seq<CodePoint>, r: seq<CodePoint>) {
    && |s| == |r|
    && forall i | 0 <= i < |s| :: (u.ccc(s[i]) == 0 || u.ccc(r[i]) == 0) ==> s[i] == r[i]
  }

  lemma {:induction false} InsertKeepsStarters(u: Ucd, s: seq<CodePoint>, c: CodePoint)
    ensures SameStarters(u, s + [c], Insert(u, s, c))
    decreases |s|
  {
    if u.ccc(c) == 0 || s == [] || u.ccc(s[|s| - 1]) <= u.ccc(c) {
    } else {
      var front := s[..|s| - 1];
      InsertKeepsStarters(u, front, c);
      assert forall i | 0 <= i < |front| :: (front + [c])[i] == (s + [c])[i];
    }
  }

  lemma SameStartersStep(u: Ucd, front: seq<CodePoint>, sorted: seq<CodePoint>, c: CodePoint, r: seq<CodePoint>)
    requires SameStarters(u, front, sorted) && SameStarters(u, sorted + [c], r)
    ensures SameStarters(u, front + [c], r)
  {
    var s, t := front + [c], sorted + [c];
    forall i | 0 <= i < |s| && (u.ccc(s[i]) == 0 || u.ccc(r[i]) == 0) ensures s[i] == r[i] {
      if i < |front| {
        assert s[i] == front[i] && t[i] == sorted[i];
      }
    }
  }

  lemma NoStarters(u: Ucd)
    ensures SameStarters(u, [], [])
  {
  }

  // Every starter keeps its index.
  lemma {:induction false} SortKeepsStarters(u: Ucd, s: seq<CodePoint>)
    ensures SameStarters(u, s, Sort(u, s))
  {
    hide SameStarters, Insert;
    if s == [] {
      NoStarters(u);
    } else {
      var front := s[..|s| - 1];
      SortKeepsStarters(u, front);
      InsertKeepsStarters(u, Sort(u, front), s[|s| - 1]);
      SameStartersStep(u, front, Sort(u, front), s[|s| - 1], Sort(u, s));
      assert s == front + [s[|s| - 1]];
    }
  }

  // The subsequence of starters and of marks of class k.
  function Project(u: Ucd, s: seq<CodePoint>, k: nat): seq<CodePoint> {
    if s == [] then []
    else Project(u, s[..|s| - 1], k) + (if u.ccc(s[|s| - 1]) in {0, k} then [s[|s| - 1]] else [])
  }

  lemma {:induction false} ProjectSnoc(u: Ucd, s: seq<CodePoint>, c: CodePoint, k: nat)
    ensures Project(u, s + [c], k) == Project(u, s, k) + (if u.ccc(c) in {0, k} then [c] else [])
  {
    assert (s + [c])[..|s|] == s;
  }

  lemma {:induction false} InsertKeepsProjection(u: Ucd, s: seq<CodePoint>, c: CodePoint, k: nat)
    ensures Project(u, Insert(u, s, c), k) == Project(u, s + [c], k)
    decreases |s|
  {
    if u.ccc(c) == 0 || s == [] || u.ccc(s[|s| - 1]) <= u.ccc(c) {
    } else {
      var front, last := s[..|s| - 1], s[|s| - 1];
      InsertKeepsProjection(u, front, c, k);
      ProjectSnoc(u, Insert(u, front, c), last, k);
      ProjectSnoc(u, front, c, k);
      ProjectSnoc(u, s, c, k);
    }
  }

  // Stability: within a class, and relative to the starters, nothing moves.
  lemma {:induction false} SortKeepsProjection(u: Ucd, s: seq<CodePoint>, k: nat)
    ensures Project(u, Sort(u, s), k) == Project(u, s, k)
  {
    if s == [] {
    } else {
      var front, last := s[..|s| - 1], s[|s| - 1];
      SortKeepsProjection(u, front, k);
      InsertKeepsProjection(u, Sort(u, front), last, k);
      ProjectSnoc(u, Sort(u, front), last, k);
    }
  }

  // In ordered text that ends in a mark of class below k, no mark of class k follows the last starter.
  lemma {:induction false} LaterClassAbsent(u: Ucd, s: seq<CodePoint>, k: nat)
    requires InOrder(u, s) && s != [] && 0 < u.ccc(s[|s| - 1]) < k
    ensures var p := Project(u, s, k); p == [] || u.ccc(p[|p| - 1]) == 0
    decreases |s|
  {
    var front := s[..|s| - 1];
    if front == [] {
    } else {
      assert s[|front| - 1 + 1] == s[|front|];
      if u.ccc(front[|front| - 1]) != 0 {
        LaterClassAbsent(u, front, k);
      }
    }
  }

  lemma ProjectLast(u: Ucd, s: seq<CodePoint>, k: nat)
    requires s != [] && u.ccc(s[|s| - 1]) in {0, k}
    ensures var p := Project(u, s, k); p != [] && p[|p| - 1] == s[|s| - 1]
  {
  }

  // The two texts agree on the starters together with each class of marks.
  ghost predicate SameProjections(u: Ucd, s: seq<CodePoint>, r: seq<CodePoint>) {
    forall k: nat :: Project(u, s, k) == Project(u, r, k)
  }

  lemma LastIsDetermined(u: Ucd, s: seq<CodePoint>, r: seq<CodePoint>)
    requires InOrder(u, s) && InOrder(u, r) && s != [] && r != [] && SameProjections(u, s, r)
    ensures s[|s| - 1] == r[|r| - 1]
  {
    var i, j := u.ccc(s[|s| - 1]), u.ccc(r[|r| - 1]);
    ProjectLast(u, s, i);
    ProjectLast(u, r, j);
    assert Project(u, s, i) == Project(u, r, i) && Project(u, s, j) == Project(u, r, j);
    if i == 0 {
      ProjectLast(u, s, j);
    } else if j == 0 {
      ProjectLast(u, r, i);
    } else if i < j {
      LaterClassAbsent(u, s, j);
    } else if j < i {
      LaterClassAbsent(u, r, i);
    }
  }

  // Two ordered texts with the same projections are the same text.
  lemma {:induction false} OrderIsUnique(u: Ucd, s: seq<CodePoint>, r: seq<CodePoint>)
    requires InOrder(u, s) && InOrder(u, r) && SameProjections(u, s, r)
    ensures s == r
    decreases |s|
  {
    if s == [] || r == [] {
      if s != [] {
        ProjectLast(u, s, u.ccc(s[|s| - 1]));
      } else if r != [] {
        ProjectLast(u, r, u.ccc(r[|r| - 1]));
      }
    } else {
      LastIsDetermined(u, s, r);
      var front, back, x := s[..|s| - 1], r[..|r| - 1], s[|s| - 1];
      assert s == front + [x] && r == back + [x];
      forall k: nat ensures Project(u, front, k) == Project(u, back, k) {
        ProjectSnoc(u, front, x, k);
        ProjectSnoc(u, back, x, k);
        var n := |Project(u, front, k)|;
        assert Project(u, front, k) == Project(u, s, k)[..n] == Project(u, r, k)[..n] == Project(u, back, k);
      }
      OrderIsUnique(u, front, back);
    }
  }

  // sort_marks decides reordering equivalence: two texts sort to the same text exactly when
  // they agree on the starters together with each class of marks.
  lemma SortDecidesReordering(u: Ucd, s: seq<CodePoint>, r: seq<CodePoint>)
    ensures Sort(u, s) == Sort(u, r) <==> SameProjections(u, s, r)
  {
    forall k: nat
      ensures Project(u, Sort(u, s), k) == Project(u, s, k)
      ensures Project(u, Sort(u, r), k) == Project(u, r, k)
    {
      SortKeepsProjection(u, s, k);
      SortKeepsProjection(u, r, k);
    }
    if SameProjections(u, s, r) {
      SortIsInOrder(u, s);
      SortIsInOrder(u, r);
      OrderIsUnique(u, Sort(u, s), Sort(u, r));
    }
  }
}
