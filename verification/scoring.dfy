/** Tromp-Taylor area scoring: stones plus the empty points that reach one colour only. */
module Scoring {
  import opened Wrappers
  import opened Grid
  import opened Reach
  import opened Capture
  import opened Rules

  /** The points credited to colour `c`: its stones, and the empty points that reach `c`
      but not the other colour. */
  ghost function Area(n: int, b: seq<int>, c: int): (a: set<int>)
  {
    set q | 0 <= q < |b| && (b[q] == c || (b[q] == 0 && Reaches(n, b, q, c) && !Reaches(n, b, q, 3 - c)))
  }

  /** The final score, black minus white minus komi, or nothing after a resignation. */
  ghost function AreaScore(st: State): (r: Option<real>)
  {
    if st.resign != 0 then None
    else Some((|Area(st.size, st.board, 1)| - |Area(st.size, st.board, 2)|) as real - st.komi)
  }

  // ---------------------------------------------------------------------------
  // Flood fill of one empty region

  /** Every neighbour of a visited empty point is visited, pending, or a stone whose colour
      has already been recorded as reached. */
  ghost predicate RegionFrontier(n: int, b: seq<int>, visited: set<int>, toVisit: seq<int>, black: bool, white: bool)
  {
    forall v, w :: v in visited && Adj(n, v, w) ==>
      w in visited || w in toVisit || (0 <= w < |b| && ((b[w] == 1 && black) || (b[w] == 2 && white)))
  }

  /** A colour is recorded as reached only if the start point holds it or a visited empty
      point borders it. */
  ghost predicate ReachSound(n: int, b: seq<int>, point: int, visited: set<int>, black: bool, white: bool)
    requires 0 <= point < |b|
  {
    && (black ==> b[point] == 1 || Borders(n, b, visited, 1))
    && (white ==> b[point] == 2 || Borders(n, b, visited, 2))
  }

  ghost predicate RegionInv(n: int, b: seq<int>, point: int, visited: set<int>, toVisit: seq<int>, black: bool, white: bool)
    requires 0 <= point < |b|
  {
    && VisitedInGroup(n, b, 0, point, visited)
    && PendingNearVisited(n, b, point, visited, toVisit)
    && (b[point] != 0 ==> visited == {})
    && (point in visited || point in toVisit || (b[point] == 1 && black) || (b[point] == 2 && white))
    && RegionFrontier(n, b, visited, toVisit, black, white)
    && ReachSound(n, b, point, visited, black, white)
  }

  /** Popping a stone records its colour as reached. */
  lemma RegionSeeStone(n: int, b: seq<int>, point: int, visited: set<int>, rest: seq<int>, current: int,
                       black: bool, white: bool)
    requires Sized(n, b) && ValidBoard(b) && 0 <= point < |b| && 0 <= current < |b| && b[current] != 0
    requires RegionInv(n, b, point, visited, rest + [current], black, white)
    ensures var black', white' := black || b[current] == 1, white || b[current] == 2;
      RegionInv(n, b, point, visited, rest, black', white')
  {
    var t := rest + [current];
    var black', white' := black || b[current] == 1, white || b[current] == 2;
    assert t[|rest|] == current;
    forall k | 0 <= k < |rest|
      ensures 0 <= rest[k] < |b| && (rest[k] == point || exists v :: v in visited && Adj(n, v, rest[k]))
    {
      assert rest[k] == t[k];
    }
    forall v, w | v in visited && Adj(n, v, w)
      ensures w in visited || w in rest || (0 <= w < |b| && ((b[w] == 1 && black') || (b[w] == 2 && white')))
    {
      if w in t && w != current {
        assert w in rest;
      }
    }
    if current != point {
      var v :| v in visited && Adj(n, v, current);
    }
    if point !in visited && point != current && point in t {
      assert point in rest;
    }
  }

  /** Popping an empty point that was already visited changes nothing. */
  lemma RegionSkip(n: int, b: seq<int>, point: int, visited: set<int>, rest: seq<int>, current: int,
                   black: bool, white: bool)
    requires 0 <= point < |b| && current in visited
    requires RegionInv(n, b, point, visited, rest + [current], black, white)
    ensures RegionInv(n, b, point, visited, rest, black, white)
  {
    var t := rest + [current];
    forall k | 0 <= k < |rest|
      ensures 0 <= rest[k] < |b| && (rest[k] == point || exists v :: v in visited && Adj(n, v, rest[k]))
    {
      assert rest[k] == t[k];
    }
    forall v, w | v in visited && Adj(n, v, w)
      ensures w in visited || w in rest || (0 <= w < |b| && ((b[w] == 1 && black) || (b[w] == 2 && white)))
    {
      if w in t && w != current {
        assert w in rest;
      }
    }
    if point !in visited && point in t {
      assert point in rest;
    }
  }

  /** Visiting a new empty point: mark it and push its neighbours. */
  lemma RegionVisit(n: int, b: seq<int>, point: int, visited: set<int>, rest: seq<int>, current: int,
                    black: bool, white: bool)
    requires Sized(n, b) && 0 <= point < |b| && 0 <= current < |b| && b[current] == 0 && current !in visited
    requires RegionInv(n, b, point, visited, rest + [current], black, white)
    ensures b[point] == 0
    ensures RegionInv(n, b, point, visited + {current}, rest + Neighbors(n, current), black, white)
  {
    var t := rest + [current];
    var visited', t' := visited + {current}, rest + Neighbors(n, current);
    assert t[|rest|] == current;
    VisitKeepsGroup(n, b, 0, point, visited, rest, current);
    VisitKeepsPending(n, b, point, visited, rest, current);
    forall v, w | v in visited' && Adj(n, v, w)
      ensures w in visited' || w in t' || (0 <= w < |b| && ((b[w] == 1 && black) || (b[w] == 2 && white)))
    {
      if v == current {
        assert w in Neighbors(n, current);
      } else if w in t && w != current {
        assert w in rest;
      }
    }
    if point !in visited' {
      assert point in rest;
    }
  }

  /** The empty region around `point` and the colours it reaches, by a depth-first work list
      that records the colour of every stone it pops and expands only empty points. For a
      stone, nothing is expanded and only its own colour is recorded. */
  method FloodRegion(n: int, b: seq<int>, point: int) returns (visited: set<int>, black: bool, white: bool)
    requires Sized(n, b) && ValidBoard(b) && 0 <= point < |b|
    ensures b[point] != 0 ==> visited == {} && (black <==> b[point] == 1) && (white <==> b[point] == 2)
    ensures b[point] == 0 ==> visited == Group(n, b, 0, point)
    ensures b[point] == 0 ==> (black <==> Reaches(n, b, point, 1)) && (white <==> Reaches(n, b, point, 2))
  {
    visited, black, white := {}, false, false;
    var toVisit := [point];
    while |toVisit| > 0
      invariant RegionInv(n, b, point, visited, toVisit, black, white)
      decreases Cells(|b|) - visited, |toVisit|
    {
      var current := toVisit[|toVisit| - 1];
      var rest := toVisit[..|toVisit| - 1];
      assert toVisit == rest + [current];
      toVisit := rest;
      var color := b[current];
      if color == 0 {
        if current in visited {
          RegionSkip(n, b, point, visited, rest, current, black, white);
        } else {
          RegionVisit(n, b, point, visited, rest, current, black, white);
          visited := visited + {current};
          toVisit := toVisit + Neighbors(n, current);
        }
      } else {
        RegionSeeStone(n, b, point, visited, rest, current, black, white);
        if color == 1 {
          black := true;
        } else {
          white := true;
        }
      }
    }
    if b[point] == 0 {
      RegionDone(n, b, point, visited, black, white);
    }
  }

  lemma RegionDone(n: int, b: seq<int>, point: int, visited: set<int>, black: bool, white: bool)
    requires 0 <= point < |b| && b[point] == 0
    requires RegionInv(n, b, point, visited, [], black, white)
    ensures visited == Group(n, b, 0, point)
    ensures (black <==> Reaches(n, b, point, 1)) && (white <==> Reaches(n, b, point, 2))
  {
    GroupLeast(n, b, 0, point, visited);
    assert Group(n, b, b[point], point) == visited;
  }

  // ---------------------------------------------------------------------------
  // Scoring the whole board

  /** `q` lies in the empty region of some empty point below `k` that reaches `c` only. */
  ghost predicate Credited(n: int, b: seq<int>, k: int, q: int, c: int)
  {
    exists p :: 0 <= p < k && p < |b| && b[p] == 0 && q in Group(n, b, 0, p)
      && Reaches(n, b, p, c) && !Reaches(n, b, p, 3 - c)
  }

  /** What the scoring loop has credited to colour `c` after the points below `k`. */
  ghost predicate CreditedSoFar(n: int, b: seq<int>, k: int, s: set<int>, c: int)
  {
    forall q :: q in s <==> 0 <= q < |b| && ((q < k && b[q] == c) || Credited(n, b, k, q, c))
  }

  lemma CreditedGrows(n: int, b: seq<int>, k: int, q: int, c: int)
    requires Credited(n, b, k, q, c)
    ensures Credited(n, b, k + 1, q, c)
  {
    var p :| 0 <= p < k && p < |b| && b[p] == 0 && q in Group(n, b, 0, p)
      && Reaches(n, b, p, c) && !Reaches(n, b, p, 3 - c);
  }

  /** A point newly credited when point `k` is tried lies in the empty region of `k`. */
  lemma CreditedAtLast(n: int, b: seq<int>, k: int, q: int, c: int)
    requires 0 <= k < |b| && Credited(n, b, k + 1, q, c) && !Credited(n, b, k, q, c)
    ensures b[k] == 0 && q in Group(n, b, 0, k) && Reaches(n, b, k, c) && !Reaches(n, b, k, 3 - c)
  {
    var p :| 0 <= p < k + 1 && p < |b| && b[p] == 0 && q in Group(n, b, 0, p)
      && Reaches(n, b, p, c) && !Reaches(n, b, p, 3 - c);
    if p < k {
      assert Credited(n, b, k, q, c);
    }
  }

  /** One round of the scoring loop: point `k`'s own stone, then its region if it reaches
      colour `c` only. */
  lemma CreditedStep(n: int, b: seq<int>, k: int, s: set<int>, c: int, visited: set<int>, reached: bool)
    requires 0 <= k < |b|
    requires CreditedSoFar(n, b, k, s, c)
    requires b[k] != 0 ==> visited == {}
    requires b[k] == 0 ==> visited == Group(n, b, 0, k)
    requires b[k] == 0 ==> (reached <==> Reaches(n, b, k, c) && !Reaches(n, b, k, 3 - c))
    ensures CreditedSoFar(n, b, k + 1, s + (if b[k] == c then {k} else {}) + (if reached then visited else {}), c)
  {
    var own := if b[k] == c then {k} else {};
    var extra := if reached then visited else {};
    var s' := s + own + extra;
    forall q
      ensures q in s' <==> 0 <= q < |b| && ((q < k + 1 && b[q] == c) || Credited(n, b, k + 1, q, c))
    {
      if q in s && Credited(n, b, k, q, c) {
        CreditedGrows(n, b, k, q, c);
      }
      if q in extra {
        GroupColour(n, b, 0, k, q);
        assert Credited(n, b, k + 1, q, c);
      }
      if Credited(n, b, k + 1, q, c) && !Credited(n, b, k, q, c) {
        CreditedAtLast(n, b, k, q, c);
      }
    }
  }

  /** After every point has been tried, the credited set is exactly the area of `c`. */
  lemma CreditedIsArea(n: int, b: seq<int>, s: set<int>, c: int)
    requires (c == 1 || c == 2) && CreditedSoFar(n, b, |b|, s, c)
    ensures s == Area(n, b, c)
  {
    forall q | 0 <= q < |b|
      ensures q in s <==> q in Area(n, b, c)
    {
      if Credited(n, b, |b|, q, c) {
        var p :| 0 <= p < |b| && b[p] == 0 && q in Group(n, b, 0, p)
          && Reaches(n, b, p, c) && !Reaches(n, b, p, 3 - c);
        GroupColour(n, b, 0, p, q);
        SameGroup(n, b, 0, p, q);
      }
      if b[q] == 0 && Reaches(n, b, q, c) && !Reaches(n, b, q, 3 - c) {
        InOwnGroup(n, b, q);
        assert Credited(n, b, |b|, q, c);
      }
    }
  }

  /** The areas of both colours, by flooding from every point in turn. */
  method Territory(n: int, b: seq<int>) returns (black: set<int>, white: set<int>)
    requires Sized(n, b) && ValidBoard(b)
    ensures black == Area(n, b, 1) && white == Area(n, b, 2)
  {
    black, white := {}, {};
    var point := 0;
    while point < |b|
      invariant 0 <= point <= |b|
      invariant CreditedSoFar(n, b, point, black, 1)
      invariant CreditedSoFar(n, b, point, white, 2)
    {
      var visited, reachBlack, reachWhite := FloodRegion(n, b, point);
      var onlyBlack, onlyWhite := reachBlack && !reachWhite, !reachBlack && reachWhite;
      CreditedStep(n, b, point, black, 1, visited, onlyBlack);
      CreditedStep(n, b, point, white, 2, visited, onlyWhite);
      // A stone is credited to its own colour; its (empty) visited set adds nothing.
      black := black + (if b[point] == 1 then {point} else {}) + (if onlyBlack then visited else {});
      white := white + (if b[point] == 2 then {point} else {}) + (if onlyWhite then visited else {});
      point := point + 1;
    }
    CreditedIsArea(n, b, black, 1);
    CreditedIsArea(n, b, white, 2);
  }

  /** The referee's final score: black area minus white area minus komi under Tromp-Taylor
      rules, or nothing once a side has resigned. */
  method FinalScore(st: State) returns (r: Option<real>)
    requires Valid(st) && st.size >= 0
    ensures r == AreaScore(st)
    ensures r.None? <==> st.resign != 0
  {
    if st.resign != 0 {
      return None;
    }
    var black, white: set<int>;
    if |st.board| == 0 {
      black, white := {}, {};
      assert Area(st.size, st.board, 1) == {} && Area(st.size, st.board, 2) == {};
    } else {
      black, white := Territory(st.size, st.board);
    }
    r := Some((|black| - |white|) as real - st.komi);
  }

  // ---------------------------------------------------------------------------
  // Consequences of the definition

  /** A colour is credited with nothing exactly when it has no stone on the board. */
  lemma AreaEmptyIffNoStones(n: int, b: seq<int>, c: int)
    requires IsColor(c)
    ensures Area(n, b, c) == {} <==> forall q :: 0 <= q < |b| ==> b[q] != c
  {
    if forall q :: 0 <= q < |b| ==> b[q] != c {
      assert Area(n, b, c) == {};
    } else {
      var q :| 0 <= q < |b| && b[q] == c;
      assert q in Area(n, b, c);
    }
  }

  /** With no stone on the board the score is minus komi; in particular for a fresh board. */
  lemma EmptyBoardScore(st: State)
    requires st.resign == 0
    requires forall q :: 0 <= q < |st.board| ==> st.board[q] == 0
    ensures AreaScore(st) == Some(-st.komi)
    ensures AreaScore(Fresh(st.size, st.komi)) == Some(-st.komi)
  {
    AreaEmptyIffNoStones(st.size, st.board, 1);
    AreaEmptyIffNoStones(st.size, st.board, 2);
    var f := Fresh(st.size, st.komi);
    AreaEmptyIffNoStones(f.size, f.board, 1);
    AreaEmptyIffNoStones(f.size, f.board, 2);
  }

  /** No point reaches a colour that has no point on the board. */
  lemma NothingReachesAbsentColour(n: int, b: seq<int>, q: int, c: int)
    requires 0 <= q < |b|
    requires forall x :: 0 <= x < |b| ==> b[x] != c
    ensures !Reaches(n, b, q, c)
  {
  }

  /** On a board whose only stone sits at `p`, every empty point reaches that stone: its
      empty region, were it not to touch `p`, would be closed under neighbours and hence be
      the whole board. */
  lemma EmptyReachesLoneStone(n: int, b: seq<int>, p: int, q: int)
    requires Sized(n, b) && 0 <= p < |b| && b[p] != 0
    requires forall x :: 0 <= x < |b| && x != p ==> b[x] == 0
    requires 0 <= q < |b| && q != p
    ensures Reaches(n, b, q, b[p])
  {
    var g := Group(n, b, 0, q);
    InOwnGroup(n, b, q);
    if !Borders(n, b, g, b[p]) {
      GroupClosed(n, b, 0, q);
      forall v, w | v in g && Adj(n, v, w)
        ensures w in g
      {
        NeighborsFacts(n, v);
      }
      ClosedSetIsWholeBoard(n, g, q, p);
      GroupColour(n, b, 0, q, p);
    }
  }

  /** A lone stone's colour is credited with every point of the board. */
  lemma LoneStoneArea(n: int, b: seq<int>, p: int)
    requires Sized(n, b) && 0 <= p < |b| && IsColor(b[p])
    requires forall x :: 0 <= x < |b| && x != p ==> b[x] == 0
    ensures Area(n, b, b[p]) == Cells(|b|)
  {
    forall q
      ensures q in Area(n, b, b[p]) <==> q in Cells(|b|)
    {
      if 0 <= q < |b| && q != p {
        EmptyReachesLoneStone(n, b, p, q);
        NothingReachesAbsentColour(n, b, q, 3 - b[p]);
      }
    }
  }

  /** A lone stone of colour `c` owns the whole board: the score is plus or minus the
      number of points, minus komi. */
  lemma LoneStoneScore(st: State, p: int, c: int)
    requires Valid(st) && st.size > 0 && st.resign == 0 && IsColor(c)
    requires 0 <= p < |st.board| && st.board[p] == c
    requires forall q :: 0 <= q < |st.board| && q != p ==> st.board[q] == 0
    ensures |st.board| == st.size * st.size
    ensures AreaScore(st) == Some((if c == 1 then |st.board| else -|st.board|) as real - st.komi)
  {
    LoneStoneAreaSizes(st.size, st.board, p);
    var b := st.board;
    if c == 1 {
      ScoreFromAreas(st, |b|, 0);
    } else {
      ScoreFromAreas(st, 0, |b|);
    }
  }

  /** With a lone stone, its colour's area has every point and the other colour's none. */
  lemma LoneStoneAreaSizes(n: int, b: seq<int>, p: int)
    requires Sized(n, b) && 0 <= p < |b| && IsColor(b[p])
    requires forall x :: 0 <= x < |b| && x != p ==> b[x] == 0
    ensures |Area(n, b, b[p])| == |b| && |Area(n, b, 3 - b[p])| == 0
  {
    AreaEmptyIffNoStones(n, b, 3 - b[p]);
    LoneStoneArea(n, b, p);
    CellsCount(|b|);
  }

  lemma ScoreFromAreas(st: State, black: int, white: int)
    requires st.resign == 0
    requires |Area(st.size, st.board, 1)| == black && |Area(st.size, st.board, 2)| == white
    ensures AreaScore(st) == Some((black - white) as real - st.komi)
  {
  }
}
