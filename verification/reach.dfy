/** Declarative connectivity on a flat board `b` of side `n`: walks through points of one
    colour, the group (or empty region) of a point, and what a set of points borders.
    These are the reference definitions the rules engine's flood fills are proved against. */
module Reach {
  import opened Grid

  /** A board of side `n` as the rules engine stores it. */
  predicate Sized(n: int, b: seq<int>)
  {
    n > 0 && |b| == n * n
  }

  /** A non-empty sequence of neighbouring on-board points, every one of colour `c`. */
  ghost predicate IsWalk(n: int, b: seq<int>, c: int, w: seq<int>)
  {
    && |w| > 0
    && (forall i :: 0 <= i < |w| ==> 0 <= w[i] < |b| && b[w[i]] == c)
    && (forall i :: 0 <= i < |w| - 1 ==> Adj(n, w[i], w[i + 1]))
  }

  /** `q` can be reached from `p` stepping only on points of colour `c`. */
  ghost predicate Connected(n: int, b: seq<int>, c: int, p: int, q: int)
  {
    exists w :: IsWalk(n, b, c, w) && w[0] == p && w[|w| - 1] == q
  }

  /** The maximal set of points of colour `c` connected to `p`: a group of stones when `c`
      is a stone colour, an empty region when `c` is 0. Empty when `p` is not of colour `c`. */
  ghost function Group(n: int, b: seq<int>, c: int, p: int): (g: set<int>)
  {
    set q | 0 <= q < |b| && Connected(n, b, c, p, q)
  }

  /** Some point of `s` has a neighbour of colour `c`. */
  ghost predicate Borders(n: int, b: seq<int>, s: set<int>, c: int)
  {
    exists v, w :: v in s && Adj(n, v, w) && 0 <= w < |b| && b[w] == c
  }

  /** A set of stones has a liberty: an empty point next to one of them. */
  ghost predicate HasLiberty(n: int, b: seq<int>, s: set<int>)
  {
    Borders(n, b, s, 0)
  }

  /** Tromp-Taylor "reaches": a path of points of `p`'s colour leads from `p` to a point
      adjacent to colour `c`. */
  ghost predicate Reaches(n: int, b: seq<int>, p: int, c: int)
    requires 0 <= p < |b|
  {
    Borders(n, b, Group(n, b, b[p], p), c)
  }

  /** `s` is closed under stepping to neighbours of colour `c`. */
  ghost predicate ClosedUnder(n: int, b: seq<int>, c: int, s: set<int>)
  {
    forall v, w :: v in s && Adj(n, v, w) && 0 <= w < |b| && b[w] == c ==> w in s
  }

  // ---------------------------------------------------------------------------
  // Walks

  lemma ConnectedRefl(n: int, b: seq<int>, c: int, p: int)
    requires 0 <= p < |b| && b[p] == c
    ensures Connected(n, b, c, p, p)
  {
    assert IsWalk(n, b, c, [p]);
  }

  lemma ConnectedEnds(n: int, b: seq<int>, c: int, p: int, q: int)
    requires Connected(n, b, c, p, q)
    ensures 0 <= p < |b| && 0 <= q < |b| && b[p] == c && b[q] == c
  {
    var w :| IsWalk(n, b, c, w) && w[0] == p && w[|w| - 1] == q;
  }

  /** A walk can be extended by one neighbouring point of the same colour. */
  lemma ConnectedStep(n: int, b: seq<int>, c: int, p: int, v: int, q: int)
    requires Connected(n, b, c, p, v) && Adj(n, v, q) && 0 <= q < |b| && b[q] == c
    ensures Connected(n, b, c, p, q)
  {
    var w :| IsWalk(n, b, c, w) && w[0] == p && w[|w| - 1] == v;
    var w' := w + [q];
    assert IsWalk(n, b, c, w');
  }

  function Reverse(w: seq<int>): (r: seq<int>)
    ensures |r| == |w|
    ensures forall i :: 0 <= i < |w| ==> r[i] == w[|w| - 1 - i]
  {
    seq(|w|, i requires 0 <= i < |w| => w[|w| - 1 - i])
  }

  lemma {:induction false} ConnectedSymmetric(n: int, b: seq<int>, c: int, p: int, q: int)
    requires Connected(n, b, c, p, q)
    ensures Connected(n, b, c, q, p)
  {
    var w :| IsWalk(n, b, c, w) && w[0] == p && w[|w| - 1] == q;
    var r := Reverse(w);
    forall i | 0 <= i < |r| - 1
      ensures Adj(n, r[i], r[i + 1])
    {
      var j := |w| - 2 - i;
      assert Adj(n, w[j], w[j + 1]);
      AdjSymmetric(n, w[j], w[j + 1]);
    }
    assert IsWalk(n, b, c, r);
  }

  lemma ConnectedTransitive(n: int, b: seq<int>, c: int, p: int, q: int, s: int)
    requires Connected(n, b, c, p, q) && Connected(n, b, c, q, s)
    ensures Connected(n, b, c, p, s)
  {
    var w1 :| IsWalk(n, b, c, w1) && w1[0] == p && w1[|w1| - 1] == q;
    var w2 :| IsWalk(n, b, c, w2) && w2[0] == q && w2[|w2| - 1] == s;
    var w := w1 + w2[1..];
    forall i | 0 <= i < |w| - 1
      ensures Adj(n, w[i], w[i + 1])
    {
      if i < |w1| - 1 {
        assert w[i] == w1[i] && w[i + 1] == w1[i + 1];
      } else {
        var j := i - |w1| + 1;
        assert w[i] == w2[j] && w[i + 1] == w2[j + 1];
      }
    }
    assert IsWalk(n, b, c, w);
  }

  // ---------------------------------------------------------------------------
  // Groups

  lemma InOwnGroup(n: int, b: seq<int>, p: int)
    requires 0 <= p < |b|
    ensures p in Group(n, b, b[p], p)
  {
    ConnectedRefl(n, b, b[p], p);
  }

  /** A walk that starts inside a set closed under colour-`c` steps stays inside it. */
  lemma {:induction false} WalkStaysInClosed(n: int, b: seq<int>, c: int, s: set<int>, w: seq<int>)
    requires IsWalk(n, b, c, w) && w[0] in s && ClosedUnder(n, b, c, s)
    ensures w[|w| - 1] in s
    decreases |w|
  {
    if |w| > 1 {
      var w' := w[..|w| - 1];
      assert IsWalk(n, b, c, w');
      WalkStaysInClosed(n, b, c, s, w');
      assert Adj(n, w[|w| - 2], w[|w| - 1]);
    }
  }

  /** The group of `p` is the least set containing `p` that is closed under colour-`c` steps. */
  lemma GroupLeast(n: int, b: seq<int>, c: int, p: int, s: set<int>)
    requires p in s && ClosedUnder(n, b, c, s)
    ensures Group(n, b, c, p) <= s
  {
    forall q | q in Group(n, b, c, p)
      ensures q in s
    {
      var w :| IsWalk(n, b, c, w) && w[0] == p && w[|w| - 1] == q;
      WalkStaysInClosed(n, b, c, s, w);
    }
  }

  lemma GroupClosed(n: int, b: seq<int>, c: int, p: int)
    ensures ClosedUnder(n, b, c, Group(n, b, c, p))
  {
    forall v, w | v in Group(n, b, c, p) && Adj(n, v, w) && 0 <= w < |b| && b[w] == c
      ensures w in Group(n, b, c, p)
    {
      ConnectedStep(n, b, c, p, v, w);
    }
  }

  /** Every point of a group has that group as its own group. */
  lemma SameGroup(n: int, b: seq<int>, c: int, p: int, q: int)
    requires q in Group(n, b, c, p)
    ensures Group(n, b, c, q) == Group(n, b, c, p)
  {
    ConnectedSymmetric(n, b, c, p, q);
    forall s | s in Group(n, b, c, q)
      ensures s in Group(n, b, c, p)
    {
      ConnectedTransitive(n, b, c, p, q, s);
    }
    forall s | s in Group(n, b, c, p)
      ensures s in Group(n, b, c, q)
    {
      ConnectedTransitive(n, b, c, q, p, s);
    }
  }

  lemma GroupColour(n: int, b: seq<int>, c: int, p: int, q: int)
    requires q in Group(n, b, c, p)
    ensures 0 <= p < |b| && b[p] == c && 0 <= q < |b| && b[q] == c
  {
    ConnectedEnds(n, b, c, p, q);
  }
}
