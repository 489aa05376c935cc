// Canonical equivalence as the Unicode Standard defines it, by replacing characters with their
// decompositions and exchanging neighbouring decomposed marks of different classes, in either direction
// and any number of times; and the proof that the decomposed form decides it.
module CanonicalEquivalence {
  import opened UnicodeData
  import opened CanonicalOrder
  import opened CanonicalDecomposition

  datatype Move =
    | Expand(pre: seq<CodePoint>, c: CodePoint, post: seq<CodePoint>)
    | Exchange(pre: seq<CodePoint>, x: CodePoint, y: CodePoint, post: seq<CodePoint>)
  {
    ghost predicate IsLegal(u: Ucd) {
      Exchange? ==>
        && u.ccc(x) != 0 && u.ccc(y) != 0 && u.ccc(x) != u.ccc(y)
        && u.decomposition(x) == [x] && u.decomposition(y) == [y]
    }

    function From(): seq<CodePoint> {
      match this
      case Expand(_, _, _) => pre + [c] + post
      case Exchange(_, _, _, _) => pre + [x, y] + post
    }

    function To(u: Ucd): seq<CodePoint> {
      match this
      case Expand(_, _, _) => pre + u.decomposition(c) + post
      case Exchange(_, _, _, _) => pre + [y, x] + post
    }

    function Within(before: seq<CodePoint>, after: seq<CodePoint>): Move {
      match this
      case Expand(_, _, _) => Expand(before + pre, c, post + after)
      case Exchange(_, _, _, _) => Exchange(before + pre, x, y, post + after)
    }
  }

  // moves lead from a to b, each taken forwards or backwards.
  ghost predicate IsPath(u: Ucd, moves: seq<Move>, a: seq<CodePoint>, b: seq<CodePoint>) {
    if moves == [] then a == b
    else
      var m := moves[0];
      m.IsLegal(u) && ((m.From() == a && IsPath(u, moves[1..], m.To(u), b))
                       || (m.To(u) == a && IsPath(u, moves[1..], m.From(), b)))
  }

  ghost predicate AreEquivalent(u: Ucd, a: seq<CodePoint>, b: seq<CodePoint>) {
    exists moves :: IsPath(u, moves, a, b)
  }

  // ---------- equivalent texts have the same decomposed form ----------

  lemma DecomposeParts(u: Ucd, a: seq<CodePoint>, b: seq<CodePoint>, c: seq<CodePoint>)
    ensures Decompose(u, a + b + c) == Decompose(u, a) + Decompose(u, b) + Decompose(u, c)
  {
    DecomposeConcat(u, a + b, c);
    DecomposeConcat(u, a, b);
  }

  lemma MoveKeepsNfd(u: Ucd, m: Move)
    requires DecompositionsOK(u) && m.IsLegal(u)
    ensures Nfd(u, m.From()) == Nfd(u, m.To(u))
  {
    hide Sort, Decompose;
    match m {
      case Expand(pre, c, post) =>
        DecomposeParts(u, pre, [c], post);
        DecomposeParts(u, pre, u.decomposition(c), post);
        DecomposeOne(u, c);
        DecomposeOfDecomposed(u, u.decomposition(c));
      case Exchange(pre, x, y, post) =>
        DecomposeParts(u, pre, [x, y], post);
        DecomposeParts(u, pre, [y, x], post);
        DecomposeOfDecomposed(u, [x, y]);
        DecomposeOfDecomposed(u, [y, x]);
        SortIgnoresSwap(u, Decompose(u, pre), x, y, Decompose(u, post));
    }
  }

  lemma {:induction false} PathKeepsNfd(u: Ucd, moves: seq<Move>, a: seq<CodePoint>, b: seq<CodePoint>)
    requires DecompositionsOK(u) && IsPath(u, moves, a, b)
    ensures Nfd(u, a) == Nfd(u, b)
  {
    hide Nfd, DecompositionsOK;
    if moves == [] {
    } else {
      var m := moves[0];
      MoveKeepsNfd(u, m);
      if m.From() == a && IsPath(u, moves[1..], m.To(u), b) {
        PathKeepsNfd(u, moves[1..], m.To(u), b);
      } else {
        PathKeepsNfd(u, moves[1..], m.From(), b);
      }
    }
  }

  // ---------- every text is equivalent to its decomposed form ----------

  lemma {:induction false} PathsJoin(
    u: Ucd, p: seq<Move>, q: seq<Move>, a: seq<CodePoint>, b: seq<CodePoint>, c: seq<CodePoint>)
    requires IsPath(u, p, a, b) && IsPath(u, q, b, c)
    ensures IsPath(u, p + q, a, c)
  {
    if p == [] {
      assert p + q == q;
    } else {
      var m := p[0];
      assert (p + q)[1..] == p[1..] + q;
      if m.From() == a && IsPath(u, p[1..], m.To(u), b) {
        PathsJoin(u, p[1..], q, m.To(u), b, c);
      } else {
        PathsJoin(u, p[1..], q, m.From(), b, c);
      }
    }
  }

  lemma {:induction false} PathReverses(u: Ucd, p: seq<Move>, a: seq<CodePoint>, b: seq<CodePoint>)
    returns (q: seq<Move>)
    requires IsPath(u, p, a, b)
    ensures IsPath(u, q, b, a)
  {
    if p == [] {
      q := [];
    } else {
      var m := p[0];
      var forwards := m.From() == a && IsPath(u, p[1..], m.To(u), b);
      var next := if forwards then m.To(u) else m.From();
      var r := PathReverses(u, p[1..], next, b);
      assert IsPath(u, [m], next, a) by {
        assert [m][1..] == [];
      }
      PathsJoin(u, r, [m], b, next, a);
      q := r + [m];
    }
  }

  lemma MoveWithin(u: Ucd, m: Move, before: seq<CodePoint>, after: seq<CodePoint>)
    requires m.IsLegal(u)
    ensures m.Within(before, after).IsLegal(u)
    ensures m.Within(before, after).From() == before + m.From() + after
    ensures m.Within(before, after).To(u) == before + m.To(u) + after
  {
  }

  lemma {:induction false} PathWithin(
    u: Ucd, p: seq<Move>, a: seq<CodePoint>, b: seq<CodePoint>, before: seq<CodePoint>, after: seq<CodePoint>)
    returns (q: seq<Move>)
    requires IsPath(u, p, a, b)
    ensures IsPath(u, q, before + a + after, before + b + after)
    decreases |p|
  {
    if p == [] {
      q := [];
    } else {
      var m := p[0];
      MoveWithin(u, m, before, after);
      var next := if m.From() == a && IsPath(u, p[1..], m.To(u), b) then m.To(u) else m.From();
      var r := PathWithin(u, p[1..], next, b, before, after);
      q := [m.Within(before, after)] + r;
      assert q[1..] == r;
    }
  }

  lemma MoveIsPath(u: Ucd, m: Move)
    requires m.IsLegal(u)
    ensures IsPath(u, [m], m.From(), m.To(u))
  {
    assert [m][1..] == [];
  }

  lemma {:induction false} DecomposeIsReached(u: Ucd, s: seq<CodePoint>) returns (p: seq<Move>)
    ensures IsPath(u, p, s, Decompose(u, s))
    decreases |s|
  {
    hide IsPath;
    if s == [] {
      p := [];
      EmptyPath(u, s);
    } else {
      var d := Decompose(u, s[1..]);
      var q := DecomposeIsReached(u, s[1..]);
      var r := PathWithin(u, q, s[1..], d, [s[0]], []);
      assert [s[0]] + s[1..] + [] == s;
      var m := Expand([], s[0], d);
      MoveIsPath(u, m);
      assert m.From() == [s[0]] + d + [] && m.To(u) == Decompose(u, s);
      PathsJoin(u, r, [m], s, m.From(), m.To(u));
      p := r + [m];
    }
  }

  lemma EmptyPath(u: Ucd, s: seq<CodePoint>)
    ensures IsPath(u, [], s, s)
  {
  }

  lemma {:induction false} InsertIsReached(u: Ucd, s: seq<CodePoint>, c: CodePoint) returns (p: seq<Move>)
    requires AllDecomposed(u, s) && u.decomposition(c) == [c]
    ensures IsPath(u, p, s + [c], Insert(u, s, c))
    decreases |s|
  {
    hide IsPath;
    if u.ccc(c) == 0 || s == [] || u.ccc(s[|s| - 1]) <= u.ccc(c) {
      p := [];
      EmptyPath(u, s + [c]);
    } else {
      var front, last := s[..|s| - 1], s[|s| - 1];
      var m := Exchange(front, last, c, []);
      MoveIsPath(u, m);
      assert m.From() == s + [c];
      var q := InsertIsReached(u, front, c);
      var r := PathWithin(u, q, front + [c], Insert(u, front, c), [], [last]);
      assert m.To(u) == [] + (front + [c]) + [last];
      assert [] + Insert(u, front, c) + [last] == Insert(u, s, c);
      PathsJoin(u, [m], r, s + [c], m.To(u), Insert(u, s, c));
      p := [m] + r;
    }
  }

  lemma {:induction false} SortIsReached(u: Ucd, s: seq<CodePoint>) returns (p: seq<Move>)
    requires AllDecomposed(u, s)
    ensures IsPath(u, p, s, Sort(u, s))
    decreases |s|
  {
    hide IsPath;
    if s == [] {
      p := [];
      EmptyPath(u, s);
    } else {
      var front, last := s[..|s| - 1], s[|s| - 1];
      var q := SortIsReached(u, front);
      var r := PathWithin(u, q, front, Sort(u, front), [], [last]);
      assert [] + front + [last] == s;
      assert [] + Sort(u, front) + [last] == Sort(u, front) + [last];
      SortKeepsDecomposed(u, front);
      var i := InsertIsReached(u, Sort(u, front), last);
      PathsJoin(u, r, i, s, Sort(u, front) + [last], Sort(u, s));
      p := r + i;
    }
  }

  lemma NfdIsReached(u: Ucd, s: seq<CodePoint>) returns (p: seq<Move>)
    requires DecompositionsOK(u)
    ensures IsPath(u, p, s, Nfd(u, s))
  {
    hide IsPath;
    var q := DecomposeIsReached(u, s);
    DecomposeIsDecomposed(u, s);
    var r := SortIsReached(u, Decompose(u, s));
    PathsJoin(u, q, r, s, Decompose(u, s), Nfd(u, s));
    p := q + r;
  }

  // Two texts are canonically equivalent exactly when they have the same decomposed form.
  lemma NfdDecidesEquivalence(u: Ucd, a: seq<CodePoint>, b: seq<CodePoint>)
    requires DecompositionsOK(u)
    ensures AreEquivalent(u, a, b) <==> Nfd(u, a) == Nfd(u, b)
  {
    hide IsPath, Nfd;
    if AreEquivalent(u, a, b) {
      var moves :| IsPath(u, moves, a, b);
      PathKeepsNfd(u, moves, a, b);
    }
    if Nfd(u, a) == Nfd(u, b) {
      var p := NfdIsReached(u, a);
      var q := NfdIsReached(u, b);
      var r := PathReverses(u, q, b, Nfd(u, b));
      PathsJoin(u, p, r, a, Nfd(u, a), b);
    }
  }
}
