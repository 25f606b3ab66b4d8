/** The square board as a flat index space: point `col * n + row` for `0 <= col, row < n`,
    and the four-way neighbourhood the rules engine walks over. */
module Grid {

  /** Column of a point: which block of `n` consecutive indices it lies in. */
  function Col(n: int, p: int): (c: int)
    requires n > 0
  {
    p / n
  }

  /** Row of a point: its offset inside its column. */
  function Row(n: int, p: int): (r: int)
    requires n > 0
  {
    p % n
  }

  /** The point in column `c`, row `r`. */
  function At(n: int, c: int, r: int): (p: int)
  {
    c * n + r
  }

  predicate OnBoard(n: int, p: int)
  {
    0 <= p < n * n
  }

  /** The neighbours of `p` in the order the rules engine yields them:
      previous column, next column, previous row, next row. */
  function Neighbors(n: int, p: int): (r: seq<int>)
    requires n > 0 && OnBoard(n, p)
    ensures |r| <= 4
    ensures forall i :: 0 <= i < |r| ==> OnBoard(n, r[i]) && r[i] != p
    ensures forall i :: 0 <= i < |r| ==> (r[i] == p - 1 || r[i] == p + 1) ==> Col(n, r[i]) == Col(n, p)
  {
    var prevCol := if p >= n then [p - n] else [];
    var nextCol := if p + n < n * n then [p + n] else [];
    var prevRow := if p % n != 0 then [p - 1] else [];
    var nextRow := if p % n != n - 1 then [p + 1] else [];
    NeighborsFacts(n, p);
    prevCol + nextCol + prevRow + nextRow
  }

  /** Declarative adjacency: two on-board points one step apart along a column or a row. */
  predicate Adjacent(n: int, p: int, q: int)
  {
    && n > 0 && OnBoard(n, p) && OnBoard(n, q)
    && ((Col(n, p) == Col(n, q) && (Row(n, p) - Row(n, q) == 1 || Row(n, q) - Row(n, p) == 1))
     || (Row(n, p) == Row(n, q) && (Col(n, p) - Col(n, q) == 1 || Col(n, q) - Col(n, p) == 1)))
  }

  /** `q` is yielded as a neighbour of `p`. */
  predicate Adj(n: int, p: int, q: int)
  {
    n > 0 && OnBoard(n, p) && q in Neighbors(n, p)
  }

  // ---------------------------------------------------------------------------
  // Arithmetic on the flat index

  lemma MulLe(a: int, b: int, n: int)
    requires a <= b && n >= 0
    ensures a * n <= b * n
  {
    assert b * n - a * n == (b - a) * n;
  }

  lemma MulAtLeast(k: int, n: int)
    requires k >= 1 && n > 0
    ensures k * n >= n
  {
    MulLe(1, k, n);
  }

  /** Column and row are the unique decomposition of an index. */
  lemma DivModUnique(n: int, a: int, c: int, r: int)
    requires n > 0 && 0 <= r < n && a == c * n + r
    ensures a / n == c && a % n == r
  {
    var q, m := a / n, a % n;
    assert (q - c) * n == r - m;
    if q - c >= 1 {
      MulAtLeast(q - c, n);
    } else if c - q >= 1 {
      MulAtLeast(c - q, n);
    }
  }

  lemma Decompose(n: int, p: int)
    requires n > 0
    ensures p == At(n, Col(n, p), Row(n, p)) && 0 <= Row(n, p) < n
  {
  }

  /** An index is on the board exactly when its column and row are both below `n`. */
  lemma OnBoardCoords(n: int, p: int)
    requires n > 0
    ensures OnBoard(n, p) <==> 0 <= Col(n, p) < n
  {
    var c, r := Col(n, p), Row(n, p);
    Decompose(n, p);
    if 0 <= c < n {
      MulLe(c, n - 1, n);
      assert (n - 1) * n == n * n - n;
    }
    if c >= n {
      MulLe(n, c, n);
    }
    if c < 0 {
      MulLe(c, -1, n);
    }
  }

  lemma AtCoords(n: int, c: int, r: int)
    requires n > 0 && 0 <= c < n && 0 <= r < n
    ensures OnBoard(n, At(n, c, r)) && Col(n, At(n, c, r)) == c && Row(n, At(n, c, r)) == r
  {
    DivModUnique(n, At(n, c, r), c, r);
    OnBoardCoords(n, At(n, c, r));
  }

  lemma ShiftCol(n: int, p: int, d: int)
    requires n > 0 && (d == 1 || d == -1)
    ensures Col(n, p + d * n) == Col(n, p) + d && Row(n, p + d * n) == Row(n, p)
  {
    Decompose(n, p);
    var c, r := Col(n, p), Row(n, p);
    assert p + d * n == (c + d) * n + r;
    DivModUnique(n, p + d * n, c + d, r);
  }

  lemma ShiftRow(n: int, p: int, d: int)
    requires n > 0 && (d == 1 || d == -1)
    requires 0 <= Row(n, p) + d < n
    ensures Col(n, p + d) == Col(n, p) && Row(n, p + d) == Row(n, p) + d
  {
    Decompose(n, p);
    var c, r := Col(n, p), Row(n, p);
    assert p + d == c * n + (r + d);
    DivModUnique(n, p + d, c, r + d);
  }

  lemma NeighborsFacts(n: int, p: int)
    requires n > 0 && OnBoard(n, p)
    ensures p >= n ==> OnBoard(n, p - n) && Col(n, p - n) == Col(n, p) - 1 && Row(n, p - n) == Row(n, p)
    ensures p + n < n * n ==> OnBoard(n, p + n) && Col(n, p + n) == Col(n, p) + 1 && Row(n, p + n) == Row(n, p)
    ensures p % n != 0 ==> OnBoard(n, p - 1) && Col(n, p - 1) == Col(n, p) && Row(n, p - 1) == Row(n, p) - 1
    ensures p % n != n - 1 ==> OnBoard(n, p + 1) && Col(n, p + 1) == Col(n, p) && Row(n, p + 1) == Row(n, p) + 1
  {
    Decompose(n, p);
    OnBoardCoords(n, p);
    ShiftCol(n, p, 1);
    ShiftCol(n, p, -1);
    OnBoardCoords(n, p + n);
    OnBoardCoords(n, p - n);
    if p % n != 0 {
      ShiftRow(n, p, -1);
      OnBoardCoords(n, p - 1);
    }
    if p % n != n - 1 {
      ShiftRow(n, p, 1);
      OnBoardCoords(n, p + 1);
    }
  }

  // ---------------------------------------------------------------------------
  // Properties of the neighbourhood

  /** The yielded neighbours are exactly the declaratively adjacent points. */
  lemma NeighborsExact(n: int, p: int, q: int)
    requires n > 0 && OnBoard(n, p)
    ensures q in Neighbors(n, p) <==> Adjacent(n, p, q)
  {
    NeighborsFacts(n, p);
    if Adjacent(n, p, q) {
      AdjacentIsStep(n, p, q);
    }
  }

  /** An adjacent point is one of the four steps `Neighbors` considers, under its guard. */
  lemma AdjacentIsStep(n: int, p: int, q: int)
    requires Adjacent(n, p, q)
    ensures || (q == p - n && p >= n) || (q == p + n && p + n < n * n)
            || (q == p - 1 && p % n != 0) || (q == p + 1 && p % n != n - 1)
  {
    Decompose(n, p);
    Decompose(n, q);
    if Row(n, p) == Row(n, q) {
      ColumnStep(n, p, q);
    } else {
      assert q == p - 1 || q == p + 1;
    }
  }

  /** A neighbour in the same row is one column, that is `n` indices, away. */
  lemma ColumnStep(n: int, p: int, q: int)
    requires n > 0 && OnBoard(n, p) && OnBoard(n, q) && Row(n, p) == Row(n, q)
    requires Col(n, p) - Col(n, q) == 1 || Col(n, q) - Col(n, p) == 1
    ensures (q == p - n && p >= n) || (q == p + n && p + n < n * n)
  {
    Decompose(n, p);
    Decompose(n, q);
    var cp, cq, r := Col(n, p), Col(n, q), Row(n, p);
    if cq == cp - 1 {
      assert q == (cp - 1) * n + r == p - n;
      OnBoardCoords(n, q);
      assert q >= 0;
    } else {
      assert q == (cp + 1) * n + r == p + n;
    }
  }

  /** Adjacency is symmetric: `q` is a neighbour of `p` iff `p` is a neighbour of `q`. */
  lemma NeighborsSymmetric(n: int, p: int, q: int)
    requires n > 0 && OnBoard(n, p) && OnBoard(n, q)
    ensures q in Neighbors(n, p) <==> p in Neighbors(n, q)
  {
    NeighborsExact(n, p, q);
    NeighborsExact(n, q, p);
  }

  lemma AdjSymmetric(n: int, p: int, q: int)
    requires Adj(n, p, q)
    ensures Adj(n, q, p)
  {
    NeighborsSymmetric(n, p, q);
  }

  /** Stepping to the next row inside a column is a neighbour step. */
  lemma AdjNextRow(n: int, c: int, r: int)
    requires n > 0 && 0 <= c < n && 0 <= r < n - 1
    ensures Adj(n, At(n, c, r), At(n, c, r + 1))
  {
    AtCoords(n, c, r);
    AtCoords(n, c, r + 1);
    NeighborsExact(n, At(n, c, r), At(n, c, r + 1));
  }

  /** Stepping to the next column inside a row is a neighbour step. */
  lemma AdjNextCol(n: int, c: int, r: int)
    requires n > 0 && 0 <= c < n - 1 && 0 <= r < n
    ensures Adj(n, At(n, c, r), At(n, c + 1, r))
  {
    AtCoords(n, c, r);
    AtCoords(n, c + 1, r);
    NeighborsExact(n, At(n, c, r), At(n, c + 1, r));
  }

  /** The board is connected: a non-empty set of on-board points that is closed under
      taking neighbours holds every point of the board. */
  lemma {:induction false} ClosedSetIsWholeBoard(n: int, s: set<int>, x: int, q: int)
    requires n > 0 && x in s && OnBoard(n, x) && OnBoard(n, q)
    requires forall v, w :: v in s && Adj(n, v, w) ==> w in s
    ensures q in s
  {
    OnBoardCoords(n, x);
    OnBoardCoords(n, q);
    Decompose(n, x);
    Decompose(n, q);
    ColumnClosed(n, s, Col(n, x), Row(n, x), 0);
    RowClosed(n, s, Col(n, x), 0, Col(n, q));
    ColumnClosed(n, s, Col(n, q), 0, Row(n, q));
  }

  /** Within a column, a closed set holding one point holds every point. */
  lemma {:induction false} ColumnClosed(n: int, s: set<int>, c: int, r: int, r': int)
    requires n > 0 && 0 <= c < n && 0 <= r < n && 0 <= r' < n && At(n, c, r) in s
    requires forall v, w :: v in s && Adj(n, v, w) ==> w in s
    ensures At(n, c, r') in s
    decreases if r <= r' then r' - r else r - r'
  {
    if r < r' {
      AdjNextRow(n, c, r);
      ColumnClosed(n, s, c, r + 1, r');
    } else if r > r' {
      AdjNextRow(n, c, r - 1);
      AdjSymmetric(n, At(n, c, r - 1), At(n, c, r));
      ColumnClosed(n, s, c, r - 1, r');
    }
  }

  /** Within a row, a closed set holding one point holds every point. */
  lemma {:induction false} RowClosed(n: int, s: set<int>, c: int, r: int, c': int)
    requires n > 0 && 0 <= c < n && 0 <= r < n && 0 <= c' < n && At(n, c, r) in s
    requires forall v, w :: v in s && Adj(n, v, w) ==> w in s
    ensures At(n, c', r) in s
    decreases if c <= c' then c' - c else c - c'
  {
    if c < c' {
      AdjNextCol(n, c, r);
      RowClosed(n, s, c + 1, r, c');
    } else if c > c' {
      AdjNextCol(n, c - 1, r);
      AdjSymmetric(n, At(n, c - 1, r), At(n, c, r));
      RowClosed(n, s, c - 1, r, c');
    }
  }
}
