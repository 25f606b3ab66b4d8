/** Capturing: removing a group of stones that has no liberty, and the order in which the
    rules engine tries the groups around a freshly placed stone. */
module Capture {
  import opened Grid
  import opened Reach

  /** The indices `0 .. m-1`, used to measure how many points are still unvisited. */
  function Cells(m: int): (r: set<int>)
    ensures forall i :: i in r <==> 0 <= i < m
    decreases m
  {
    if m <= 0 then {} else Cells(m - 1) + {m - 1}
  }

  /** `Cells(m)` has `m` members. */
  lemma {:induction false} CellsCount(m: nat)
    ensures |Cells(m)| == m
  {
    if m > 0 {
      CellsCount(m - 1);
      assert Cells(m - 1) * {m - 1} == {};
    }
  }

  /** `b` with every point of `s` emptied. */
  function Remove(b: seq<int>, s: set<int>): (r: seq<int>)
    ensures |r| == |b|
  {
    seq(|b|, i requires 0 <= i < |b| => if i in s then 0 else b[i])
  }

  /** Reference definition of one capture attempt: if `p` holds a stone of colour `c` whose
      group has no liberty, that whole group is removed; otherwise nothing changes. */
  ghost function ClearIfDead(n: int, b: seq<int>, p: int, c: int): (r: seq<int>)
    requires 0 <= p < |b|
    ensures |r| == |b|
    ensures forall i :: 0 <= i < |b| ==> r[i] == b[i] || (b[i] == c && r[i] == 0)
  {
    var g := Group(n, b, c, p);
    if b[p] == c && !HasLiberty(n, b, g) then
      assert forall i :: i in g ==> 0 <= i < |b| && b[i] == c by {
        forall i | i in g ensures 0 <= i < |b| && b[i] == c { GroupColour(n, b, c, p, i); }
      }
      Remove(b, g)
    else b
  }

  /** Every visited point is a stone of the group of `p`. */
  ghost predicate VisitedInGroup(n: int, b: seq<int>, c: int, p: int, visited: set<int>)
  {
    && (forall v :: v in visited ==> 0 <= v < |b| && b[v] == c)
    && visited <= Group(n, b, c, p)
  }

  /** Every pending point is on the board, and is `p` or a neighbour of a visited stone. */
  ghost predicate PendingNearVisited(n: int, b: seq<int>, p: int, visited: set<int>, toVisit: seq<int>)
  {
    forall k :: 0 <= k < |toVisit| ==>
      && 0 <= toVisit[k] < |b|
      && (toVisit[k] == p || exists v :: v in visited && Adj(n, v, toVisit[k]))
  }

  /** Every neighbour of a visited stone is visited, pending, or a stone of another colour. */
  ghost predicate FrontierCovered(n: int, b: seq<int>, c: int, visited: set<int>, toVisit: seq<int>)
  {
    forall v, w :: v in visited && Adj(n, v, w) ==>
      w in visited || w in toVisit || (0 <= w < |b| && b[w] != 0 && b[w] != c)
  }

  /** What the capture work list knows part-way through the search. */
  ghost predicate SearchInv(n: int, b: seq<int>, c: int, p: int, visited: set<int>, toVisit: seq<int>)
  {
    && VisitedInGroup(n, b, c, p, visited)
    && PendingNearVisited(n, b, p, visited, toVisit)
    && (p in visited || p in toVisit)
    && FrontierCovered(n, b, c, visited, toVisit)
  }

  lemma SearchStart(n: int, b: seq<int>, c: int, p: int)
    requires 0 <= p < |b| && b[p] == c
    ensures SearchInv(n, b, c, p, {}, [p])
  {
  }

  /** A non-empty list is its front followed by its last element. */
  lemma SplitLast(t: seq<int>)
    requires |t| > 0
    ensures t == t[..|t| - 1] + [t[|t| - 1]]
  {
  }

  /** Popping a point that is already visited or holds the other colour keeps the invariant. */
  lemma SearchSkip(n: int, b: seq<int>, c: int, p: int, visited: set<int>, t: seq<int>)
    requires c != 0 && 0 <= p < |b| && b[p] == c && |t| > 0 && 0 <= t[|t| - 1] < |b|
    requires SearchInv(n, b, c, p, visited, t)
    requires var current := t[|t| - 1]; current in visited || (b[current] != 0 && b[current] != c)
    ensures SearchInv(n, b, c, p, visited, t[..|t| - 1])
  {
    SplitLast(t);
    SkipKeepsInv(n, b, c, p, visited, t[..|t| - 1], t[|t| - 1]);
  }

  lemma SkipKeepsInv(n: int, b: seq<int>, c: int, p: int, visited: set<int>, rest: seq<int>, current: int)
    requires c != 0 && 0 <= p < |b| && b[p] == c && 0 <= current < |b|
    requires SearchInv(n, b, c, p, visited, rest + [current])
    requires current in visited || (b[current] != 0 && b[current] != c)
    ensures SearchInv(n, b, c, p, visited, rest)
  {
    var t := rest + [current];
    forall k | 0 <= k < |rest|
      ensures 0 <= rest[k] < |b|
      ensures rest[k] == p || exists v :: v in visited && Adj(n, v, rest[k])
    {
      assert rest[k] == t[k];
    }
    assert p in visited || p in t;
    if p !in visited {
      assert p == current || p in rest;
    }
  }

  lemma VisitKeepsGroup(n: int, b: seq<int>, c: int, p: int, visited: set<int>, rest: seq<int>, current: int)
    requires 0 <= p < |b| && b[p] == c
    requires VisitedInGroup(n, b, c, p, visited) && PendingNearVisited(n, b, p, visited, rest + [current])
    requires 0 <= current < |b| && b[current] == c
    ensures VisitedInGroup(n, b, c, p, visited + {current})
  {
    var t := rest + [current];
    assert t[|rest|] == current;
    if current == p {
      InOwnGroup(n, b, p);
    } else {
      var v :| v in visited && Adj(n, v, current);
      ConnectedStep(n, b, c, p, v, current);
    }
  }

  lemma VisitKeepsPending(n: int, b: seq<int>, p: int, visited: set<int>, rest: seq<int>, current: int)
    requires Sized(n, b) && 0 <= current < |b|
    requires PendingNearVisited(n, b, p, visited, rest + [current])
    ensures PendingNearVisited(n, b, p, visited + {current}, rest + Neighbors(n, current))
  {
    var t := rest + [current];
    var visited', t' := visited + {current}, rest + Neighbors(n, current);
    forall k | 0 <= k < |t'|
      ensures 0 <= t'[k] < |b|
      ensures t'[k] == p || exists v :: v in visited' && Adj(n, v, t'[k])
    {
      if k < |rest| {
        assert t'[k] == t[k];
      } else {
        assert t'[k] in Neighbors(n, current);
        assert Adj(n, current, t'[k]);
      }
    }
  }

  lemma VisitKeepsFrontier(n: int, b: seq<int>, c: int, visited: set<int>, rest: seq<int>, current: int)
    requires Sized(n, b) && 0 <= current < |b| && b[current] == c
    requires FrontierCovered(n, b, c, visited, rest + [current])
    ensures FrontierCovered(n, b, c, visited + {current}, rest + Neighbors(n, current))
  {
    var t := rest + [current];
    var visited', t' := visited + {current}, rest + Neighbors(n, current);
    forall v, w | v in visited' && Adj(n, v, w)
      ensures w in visited' || w in t' || (0 <= w < |b| && b[w] != 0 && b[w] != c)
    {
      if v == current {
        assert w in Neighbors(n, current);
      } else if w in t && w != current {
        assert w in rest;
      }
    }
  }

  /** Visiting a new stone of the group: mark it and push all of its neighbours. */
  lemma SearchVisit(n: int, b: seq<int>, c: int, p: int, visited: set<int>, t: seq<int>)
    requires Sized(n, b) && 0 <= p < |b| && b[p] == c && |t| > 0
    requires SearchInv(n, b, c, p, visited, t)
    requires var current := t[|t| - 1]; current !in visited && 0 <= current < |b| && b[current] == c
    ensures var current := t[|t| - 1];
      && SearchInv(n, b, c, p, visited + {current}, t[..|t| - 1] + Neighbors(n, current))
      && Cells(|b|) - (visited + {current}) < Cells(|b|) - visited
  {
    var rest, current := t[..|t| - 1], t[|t| - 1];
    SplitLast(t);
    VisitKeepsInv(n, b, c, p, visited, rest, current);
    VisitShrinksUnvisited(|b|, visited, current);
  }

  lemma VisitKeepsInv(n: int, b: seq<int>, c: int, p: int, visited: set<int>, rest: seq<int>, current: int)
    requires Sized(n, b) && 0 <= p < |b| && b[p] == c
    requires SearchInv(n, b, c, p, visited, rest + [current])
    requires current !in visited && 0 <= current < |b| && b[current] == c
    ensures SearchInv(n, b, c, p, visited + {current}, rest + Neighbors(n, current))
  {
    VisitKeepsGroup(n, b, c, p, visited, rest, current);
    VisitKeepsPending(n, b, p, visited, rest, current);
    VisitKeepsFrontier(n, b, c, visited, rest, current);
    var t := rest + [current];
    if p !in visited {
      assert p in t;
      if p != current {
        assert p in rest;
      }
    }
  }

  /** Visiting an unvisited point shrinks the set of unvisited points. */
  lemma VisitShrinksUnvisited(m: int, visited: set<int>, current: int)
    requires 0 <= current < m && current !in visited
    ensures Cells(m) - (visited + {current}) < Cells(m) - visited
  {
    assert current in Cells(m) - visited;
  }

  /** Popping an empty point proves the group has a liberty. */
  lemma SearchLiberty(n: int, b: seq<int>, c: int, p: int, visited: set<int>, t: seq<int>)
    requires c != 0 && 0 <= p < |b| && b[p] == c && |t| > 0
    requires SearchInv(n, b, c, p, visited, t)
    requires 0 <= t[|t| - 1] < |b| && b[t[|t| - 1]] == 0
    ensures HasLiberty(n, b, Group(n, b, c, p))
    ensures ClearIfDead(n, b, p, c) == b
  {
    var current := t[|t| - 1];
    var v :| v in visited && Adj(n, v, current);
  }

  /** With nothing left to visit, the visited stones are the whole group, and it has no liberty. */
  lemma SearchDone(n: int, b: seq<int>, c: int, p: int, visited: set<int>)
    requires c != 0 && 0 <= p < |b| && b[p] == c
    requires SearchInv(n, b, c, p, visited, [])
    ensures visited == Group(n, b, c, p)
    ensures !HasLiberty(n, b, visited)
    ensures ClearIfDead(n, b, p, c) == Remove(b, visited)
  {
    GroupLeast(n, b, c, p, visited);
  }

  /** The capture attempt as the rules engine runs it: a depth-first work list over the
      stones of colour `c` connected to `p`, giving up as soon as it pops an empty point,
      and otherwise emptying every stone it visited. */
  method TryToClear(n: int, b: seq<int>, p: int, c: int) returns (r: seq<int>)
    requires Sized(n, b) && 0 <= p < |b| && (c == 1 || c == 2)
    ensures r == ClearIfDead(n, b, p, c)
  {
    if b[p] != c {
      return b;
    }
    var visited: set<int> := {};
    var toVisit := [p];
    SearchStart(n, b, c, p);
    while |toVisit| > 0
      invariant SearchInv(n, b, c, p, visited, toVisit)
      decreases Cells(|b|) - visited, |toVisit|
    {
      var current := toVisit[|toVisit| - 1];
      if b[current] == 0 {
        SearchLiberty(n, b, c, p, visited, toVisit);
        return b;
      }
      if b[current] == c && current !in visited {
        SearchVisit(n, b, c, p, visited, toVisit);
        visited := visited + {current};
        toVisit := toVisit[..|toVisit| - 1] + Neighbors(n, current);
      } else {
        SearchSkip(n, b, c, p, visited, toVisit);
        toVisit := toVisit[..|toVisit| - 1];
      }
    }
    SearchDone(n, b, c, p, visited);
    r := Remove(b, visited);
  }

  // ---------------------------------------------------------------------------
  // Capture order around a placed stone

  /** Capture attempts for colour `o` at each point of `ns`, in order. */
  ghost function CaptureAll(n: int, b: seq<int>, ns: seq<int>, o: int): (r: seq<int>)
    requires forall k :: 0 <= k < |ns| ==> 0 <= ns[k] < |b|
    ensures |r| == |b|
    ensures forall i :: 0 <= i < |b| ==> r[i] == b[i] || (b[i] == o && r[i] == 0)
    decreases |ns|
  {
    if |ns| == 0 then b
    else
      var before := CaptureAll(n, b, ns[..|ns| - 1], o);
      ClearIfDead(n, before, ns[|ns| - 1], o)
  }

  /** Reference definition of placing a stone of colour `c` at `p`: first the opposing groups
      next to `p` are captured, neighbour by neighbour, then the mover's own group. */
  ghost function Resolve(n: int, b: seq<int>, p: int, c: int): (r: seq<int>)
    requires Sized(n, b) && 0 <= p < |b|
    ensures |r| == |b|
  {
    var placed := b[p := c];
    ClearIfDead(n, CaptureAll(n, placed, Neighbors(n, p), 3 - c), p, c)
  }

  /** The stone placement as the rules engine runs it: place, try every neighbour for the
      opponent, then try the placed stone for the mover. */
  method PlaceStone(n: int, b: seq<int>, p: int, c: int) returns (r: seq<int>)
    requires Sized(n, b) && 0 <= p < |b| && (c == 1 || c == 2)
    ensures r == Resolve(n, b, p, c)
  {
    var placed := b[p := c];
    var ns := Neighbors(n, p);
    var board := placed;
    var i := 0;
    while i < |ns|
      invariant 0 <= i <= |ns|
      invariant board == CaptureAll(n, placed, ns[..i], 3 - c)
    {
      assert ns[..i + 1][..i] == ns[..i];
      board := TryToClear(n, board, ns[i], 3 - c);
      i := i + 1;
    }
    assert ns[..|ns|] == ns;
    r := TryToClear(n, board, p, c);
  }

  /** Placing a stone only ever empties points: opposing stones it captures, and the mover's
      own stones only when the placed stone itself is removed with them (suicide). */
  lemma ResolveChanges(n: int, b: seq<int>, p: int, c: int)
    requires Sized(n, b) && 0 <= p < |b| && (c == 1 || c == 2)
    ensures var r := Resolve(n, b, p, c);
      && (forall i :: 0 <= i < |b| && i != p ==> r[i] == b[i] || (r[i] == 0 && (b[i] == c || b[i] == 3 - c)))
      && (forall i :: 0 <= i < |b| && b[i] == c && r[i] == 0 ==> r[p] == 0)
      && (r[p] == c || r[p] == 0)
  {
    var placed := b[p := c];
    var m := CaptureAll(n, placed, Neighbors(n, p), 3 - c);
    var r := ClearIfDead(n, m, p, c);
    assert r == Resolve(n, b, p, c);
    assert m[p] == c;
    forall i | 0 <= i < |b| && i != p
      ensures r[i] == b[i] || (r[i] == 0 && (b[i] == c || b[i] == 3 - c))
    {
      assert placed[i] == b[i];
      assert m[i] == b[i] || (b[i] == 3 - c && m[i] == 0);
    }
    forall i | 0 <= i < |b| && b[i] == c && r[i] == 0
      ensures r[p] == 0
    {
      if i != p {
        assert placed[i] == c;
        assert m[i] == c;
        assert r != m;
        InOwnGroup(n, m, p);
      }
    }
  }

  /** Two boards with the same stones of colour `o` have the same groups of colour `o`. */
  lemma SameStonesSameGroup(n: int, b: seq<int>, b': seq<int>, o: int, q: int)
    requires |b| == |b'|
    requires forall i :: 0 <= i < |b| ==> (b[i] == o <==> b'[i] == o)
    ensures Group(n, b, o, q) == Group(n, b', o, q)
  {
    forall w | IsWalk(n, b, o, w)
      ensures IsWalk(n, b', o, w)
    {
    }
    forall w | IsWalk(n, b', o, w)
      ensures IsWalk(n, b, o, w)
    {
    }
  }

  /** Emptying points can only add liberties. */
  lemma LibertyPersists(n: int, b: seq<int>, b': seq<int>, s: set<int>)
    requires |b| == |b'|
    requires forall i :: 0 <= i < |b| && b[i] == 0 ==> b'[i] == 0
    requires HasLiberty(n, b, s)
    ensures HasLiberty(n, b', s)
  {
    var v, w :| v in s && Adj(n, v, w) && 0 <= w < |b| && b[w] == 0;
  }

  /** A capture attempt for colour `c` leaves the groups of every other stone colour alone. */
  lemma ClearKeepsOtherGroups(n: int, b: seq<int>, p: int, c: int, o: int, q: int)
    requires 0 <= p < |b| && o != c && o != 0
    ensures Group(n, ClearIfDead(n, b, p, c), o, q) == Group(n, b, o, q)
  {
    SameStonesSameGroup(n, b, ClearIfDead(n, b, p, c), o, q);
  }

  /** A stone of colour `c` that survives a capture attempt for colour `c` keeps its group. */
  lemma ClearKeepsSurvivingGroup(n: int, b: seq<int>, p: int, c: int, q: int)
    requires 0 <= p < |b| && c != 0 && 0 <= q < |b|
    requires ClearIfDead(n, b, p, c)[q] == c
    ensures Group(n, ClearIfDead(n, b, p, c), c, q) == Group(n, b, c, q)
  {
    var b' := ClearIfDead(n, b, p, c);
    var g := Group(n, b, c, p);
    if b' != b {
      // The group of `p` was removed; `q` is not in it, so no stone of `q`'s group is either.
      assert q !in g;
      InOwnGroup(n, b, q);
      var s := Group(n, b', c, q);
      var gq := Group(n, b, c, q);
      forall w | IsWalk(n, b', c, w)
        ensures IsWalk(n, b, c, w)
      {
      }
      assert s <= gq;
      forall x | x in gq
        ensures x !in g
      {
        if x in g {
          SameGroup(n, b, c, p, x);
          SameGroup(n, b, c, q, x);
        }
      }
      ConnectedRefl(n, b', c, q);
      GroupClosed(n, b, c, q);
      forall v, w | v in s && Adj(n, v, w) && 0 <= w < |b| && b[w] == c
        ensures w in s
      {
        assert w in gq;
        ConnectedStep(n, b', c, q, v, w);
      }
      GroupLeast(n, b, c, q, s);
    }
  }

  /** Every opposing group next to the placed stone that is still on the board after the
      captures in `ns` has a liberty. */
  lemma {:induction false} CaptureAllSurvivors(n: int, b: seq<int>, ns: seq<int>, o: int, j: int)
    requires o != 0
    requires forall k :: 0 <= k < |ns| ==> 0 <= ns[k] < |b|
    requires 0 <= j < |ns| && CaptureAll(n, b, ns, o)[ns[j]] == o
    ensures HasLiberty(n, CaptureAll(n, b, ns, o), Group(n, CaptureAll(n, b, ns, o), o, ns[j]))
    decreases |ns|
  {
    var m := CaptureAll(n, b, ns, o);
    var init := ns[..|ns| - 1];
    var last := ns[|ns| - 1];
    var m' := CaptureAll(n, b, init, o);
    assert m == ClearIfDead(n, m', last, o);
    if j == |ns| - 1 {
      if m'[last] == o {
        InOwnGroup(n, m', last);
      }
    } else {
      assert ns[j] == init[j];
      CaptureAllSurvivors(n, b, init, o, j);
      ClearKeepsSurvivingGroup(n, m', last, o, ns[j]);
      LibertyPersists(n, m', m, Group(n, m', o, ns[j]));
    }
  }

  /** After a stone of colour `c` is placed at `p` and captures are resolved, no group touching
      `p` is left without a liberty: neither a surviving opposing group next to `p`, nor the
      placed stone's own group if it survived. */
  lemma ResolveLeavesLiberties(n: int, b: seq<int>, p: int, c: int)
    requires Sized(n, b) && 0 <= p < |b| && (c == 1 || c == 2)
    ensures var r := Resolve(n, b, p, c);
      && (forall q :: q in Neighbors(n, p) && r[q] == 3 - c ==> HasLiberty(n, r, Group(n, r, 3 - c, q)))
      && (r[p] == c ==> HasLiberty(n, r, Group(n, r, c, p)))
  {
    var r := Resolve(n, b, p, c);
    var ns := Neighbors(n, p);
    var m := CaptureAll(n, b[p := c], ns, 3 - c);
    assert r == ClearIfDead(n, m, p, c);
    forall q | q in ns && r[q] == 3 - c
      ensures HasLiberty(n, r, Group(n, r, 3 - c, q))
    {
      var j :| 0 <= j < |ns| && ns[j] == q;
      CaptureAllSurvivors(n, b[p := c], ns, 3 - c, j);
      ClearKeepsOtherGroups(n, m, p, c, 3 - c, q);
      LibertyPersists(n, m, r, Group(n, m, 3 - c, q));
    }
    if m[p] == c {
      InOwnGroup(n, m, p);
    }
  }

  // ---------------------------------------------------------------------------
  // Capture before suicide

  /** `m` is `b` with some stones of colour `o` emptied and nothing else changed. */
  ghost predicate EmptiedOnly(b: seq<int>, m: seq<int>, o: int)
  {
    |m| == |b| && forall i :: 0 <= i < |b| ==> m[i] == b[i] || (b[i] == o && m[i] == 0)
  }

  /** A group of `b` whose stones are all still on `m` is, on `m`, the group of each of
      its members. */
  lemma IntactGroup(n: int, b: seq<int>, m: seq<int>, o: int, q: int, x: int)
    requires EmptiedOnly(b, m, o) && o != 0
    requires forall y :: y in Group(n, b, o, q) ==> m[y] == o
    requires x in Group(n, b, o, q)
    ensures Group(n, m, o, x) == Group(n, b, o, q)
  {
    var g := Group(n, b, o, q);
    var s := Group(n, m, o, x);
    SameGroup(n, b, o, q, x);
    forall w | IsWalk(n, m, o, w)
      ensures IsWalk(n, b, o, w)
    {
    }
    assert s <= g;
    ConnectedRefl(n, m, o, x);
    GroupClosed(n, b, o, q);
    forall v, w | v in s && Adj(n, v, w) && 0 <= w < |b| && b[w] == o
      ensures w in s
    {
      assert w in g;
      ConnectedStep(n, m, o, x, v, w);
    }
    GroupLeast(n, b, o, x, s);
  }

  /** Emptying other stones of its own colour gives a group without liberties none. */
  lemma DeadGroupStaysDead(n: int, b: seq<int>, m: seq<int>, o: int, q: int)
    requires EmptiedOnly(b, m, o) && o != 0
    requires forall y :: y in Group(n, b, o, q) ==> m[y] == o
    requires !HasLiberty(n, b, Group(n, b, o, q))
    ensures !HasLiberty(n, m, Group(n, b, o, q))
  {
    var g := Group(n, b, o, q);
    GroupClosed(n, b, o, q);
    forall v, w | v in g && Adj(n, v, w) && 0 <= w < |m|
      ensures m[w] != 0
    {
      if b[w] == o {
        assert w in g;
      }
    }
  }

  /** One capture attempt for colour `o` on `m` either removes the whole of a dead group of
      `b` still standing on `m`, or none of it; it removes all of it when it starts inside. */
  lemma ClearDeadWhole(n: int, b: seq<int>, m: seq<int>, o: int, q: int, s: int)
    requires EmptiedOnly(b, m, o) && o != 0 && 0 <= s < |m|
    requires forall y :: y in Group(n, b, o, q) ==> m[y] == o
    requires !HasLiberty(n, b, Group(n, b, o, q))
    ensures var r := ClearIfDead(n, m, s, o);
      || (forall y :: y in Group(n, b, o, q) ==> r[y] == 0)
      || (forall y :: y in Group(n, b, o, q) ==> r[y] == o)
    ensures s in Group(n, b, o, q) ==>
      forall y :: y in Group(n, b, o, q) ==> ClearIfDead(n, m, s, o)[y] == 0
  {
    var g := Group(n, b, o, q);
    var gs := Group(n, m, o, s);
    if s in g {
      IntactGroup(n, b, m, o, q, s);
      DeadGroupStaysDead(n, b, m, o, q);
      assert ClearIfDead(n, m, s, o) == Remove(m, g);
    } else {
      forall y | y in g
        ensures y !in gs
      {
        if y in gs {
          GroupColour(n, m, o, s, y);
          SameGroup(n, m, o, s, y);
          IntactGroup(n, b, m, o, q, y);
          InOwnGroup(n, m, s);
        }
      }
    }
  }

  /** Every point of `s` holds `v` on `m`. */
  ghost predicate AllAre(m: seq<int>, s: set<int>, v: int)
  {
    forall y :: y in s ==> 0 <= y < |m| && m[y] == v
  }

  /** One step of the opponent sweep keeps a dead group of `b` either wholly removed or
      wholly standing, and removes it when the step starts inside it. */
  lemma SweepStepDead(n: int, b: seq<int>, m: seq<int>, o: int, q: int, s: int)
    requires EmptiedOnly(b, m, o) && o != 0 && 0 <= s < |m|
    requires !HasLiberty(n, b, Group(n, b, o, q))
    requires AllAre(m, Group(n, b, o, q), 0) || AllAre(m, Group(n, b, o, q), o)
    ensures var r := ClearIfDead(n, m, s, o);
      && (AllAre(r, Group(n, b, o, q), 0) || AllAre(r, Group(n, b, o, q), o))
      && (s in Group(n, b, o, q) || AllAre(m, Group(n, b, o, q), 0) ==> AllAre(r, Group(n, b, o, q), 0))
  {
    if AllAre(m, Group(n, b, o, q), o) {
      ClearDeadWhole(n, b, m, o, q, s);
    }
  }

  /** A group of `o` stones of `b` without a liberty is removed whole or kept whole by the
      opponent sweep over `ns`, and removed whenever its stone `q` is among the points tried. */
  lemma {:induction false} CaptureAllDead(n: int, b: seq<int>, ns: seq<int>, o: int, q: int)
    requires o != 0 && 0 <= q < |b| && b[q] == o
    requires forall k :: 0 <= k < |ns| ==> 0 <= ns[k] < |b|
    requires !HasLiberty(n, b, Group(n, b, o, q))
    ensures var m := CaptureAll(n, b, ns, o);
      AllAre(m, Group(n, b, o, q), 0) || AllAre(m, Group(n, b, o, q), o)
    ensures q in ns ==> AllAre(CaptureAll(n, b, ns, o), Group(n, b, o, q), 0)
    decreases |ns|
  {
    var g := Group(n, b, o, q);
    if |ns| == 0 {
      forall y | y in g
        ensures 0 <= y < |b| && b[y] == o
      {
        GroupColour(n, b, o, q, y);
      }
    } else {
      var init := ns[..|ns| - 1];
      var last := ns[|ns| - 1];
      var m' := CaptureAll(n, b, init, o);
      assert CaptureAll(n, b, ns, o) == ClearIfDead(n, m', last, o);
      CaptureAllDead(n, b, init, o, q);
      InOwnGroup(n, b, q);
      SweepStepDead(n, b, m', o, q, last);
      if q in ns && q !in init {
        assert q == last;
      }
    }
  }

  /** A move that captures is never suicide: when a neighbouring opposing group has no
      liberty once the stone is placed, that group is removed and the placed stone stays,
      because the opponent's groups are tried before the mover's own. */
  lemma CaptureBeforeSuicide(n: int, b: seq<int>, p: int, c: int, q: int)
    requires Sized(n, b) && 0 <= p < |b| && (c == 1 || c == 2)
    requires q in Neighbors(n, p) && b[q] == 3 - c
    requires !HasLiberty(n, b[p := c], Group(n, b[p := c], 3 - c, q))
    ensures Resolve(n, b, p, c)[p] == c
    ensures forall x :: x in Group(n, b[p := c], 3 - c, q) ==> Resolve(n, b, p, c)[x] == 0
  {
    var placed := b[p := c];
    var ns := Neighbors(n, p);
    var g := Group(n, placed, 3 - c, q);
    var m := CaptureAll(n, placed, ns, 3 - c);
    assert q != p && placed[q] == 3 - c;
    CaptureAllDead(n, placed, ns, 3 - c, q);
    InOwnGroup(n, placed, q);
    assert m[q] == 0 && m[p] == c;
    InOwnGroup(n, m, p);
    assert p in Group(n, m, c, p) && Adj(n, p, q) && 0 <= q < |m| && m[q] == 0;
    assert Resolve(n, b, p, c) == ClearIfDead(n, m, p, c);
  }
}
