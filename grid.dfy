/** The Sudoku board as a value: an n-by-n grid of integers, 0 meaning "empty",
    with n == b * b and the grid divided into b-by-b boxes. Everything the
    solver promises about a board is stated here. */
module Grid {

  type Board = seq<seq<int>>

  /** n is the side of the board and b the side of a box. */
  ghost predicate IsDim(n: nat, b: nat) {
    0 < b && n == b * b
  }

  /** g has n rows of n entries each. */
  ghost predicate Shaped<T>(g: seq<seq<T>>, n: nat) {
    |g| == n && forall i :: 0 <= i < n ==> |g[i]| == n
  }

  /** First row (or column) of the box holding row (or column) x. */
  function BoxStart(b: nat, x: nat): nat
    requires 0 < b
  {
    x / b * b
  }

  /** Cells (r1, c1) and (r2, c2) lie in the same b-by-b box. */
  ghost predicate SameBox(b: nat, r1: nat, c1: nat, r2: nat, c2: nat)
    requires 0 < b
  {
    r1 / b == r2 / b && c1 / b == c2 / b
  }

  /** The two cells share a row, a column or a box. */
  ghost predicate Peer(b: nat, r1: nat, c1: nat, r2: nat, c2: nat)
    requires 0 < b
  {
    r1 == r2 || c1 == c2 || SameBox(b, r1, c1, r2, c2)
  }

  lemma MulSign(t: int, b: int)
    requires 0 < b
    ensures t >= 1 ==> t * b >= b
    ensures t <= -1 ==> t * b <= -b
  {
    assert t * b == (t - 1) * b + b;
    assert t * b == (t + 1) * b - b;
  }

  lemma DivUnique(b: int, q: int, y: int)
    requires 0 < b && 0 <= y && q * b <= y < q * b + b
    ensures y / b == q
  {
    var d := y / b;
    assert (d - q) * b == d * b - q * b;
    MulSign(d - q, b);
  }

  /** The box of x is the b consecutive lines starting at BoxStart(b, x),
      and it lies inside the board. */
  lemma BoxRange(n: nat, b: nat, x: nat, y: nat)
    requires IsDim(n, b) && x < n
    ensures BoxStart(b, x) <= x < BoxStart(b, x) + b <= n
    ensures y / b == x / b <==> BoxStart(b, x) <= y < BoxStart(b, x) + b
  {
    var q := x / b;
    assert q * b <= x < q * b + b;
    assert (b - q) * b == b * b - q * b;
    MulSign(b - q, b);
    assert (q + 1) * b == q * b + b;
    if BoxStart(b, x) <= y < BoxStart(b, x) + b {
      DivUnique(b, q, y);
    }
  }

  /** Every entry is 0 (empty) or one of the values 1..n. */
  ghost predicate InRange(g: Board, n: nat)
    requires Shaped(g, n)
  {
    forall i, j :: 0 <= i < n && 0 <= j < n ==> 0 <= g[i][j] <= n
  }

  /** Every entry is one of the values 1..n: no cell is empty. */
  ghost predicate Filled(g: Board, n: nat)
    requires Shaped(g, n)
  {
    forall i, j :: 0 <= i < n && 0 <= j < n ==> 1 <= g[i][j] <= n
  }

  /** No empty cell is left. */
  ghost predicate NoEmpty(g: Board, n: nat)
    requires Shaped(g, n)
  {
    forall i, j :: 0 <= i < n && 0 <= j < n ==> g[i][j] != 0
  }

  /** v occurs nowhere in row `row`. */
  ghost predicate NotInRow(g: Board, n: nat, row: nat, v: int)
    requires Shaped(g, n) && row < n
  {
    forall x :: 0 <= x < n ==> g[row][x] != v
  }

  /** v occurs nowhere in column `col`. */
  ghost predicate NotInCol(g: Board, n: nat, col: nat, v: int)
    requires Shaped(g, n) && col < n
  {
    forall x :: 0 <= x < n ==> g[x][col] != v
  }

  /** v occurs nowhere in the box holding (row, col). */
  ghost predicate NotInBox(g: Board, n: nat, b: nat, row: nat, col: nat, v: int)
    requires IsDim(n, b) && Shaped(g, n) && row < n && col < n
  {
    forall i, j :: 0 <= i < n && 0 <= j < n && SameBox(b, i, j, row, col) ==> g[i][j] != v
  }

  /** Placing v at (row, col) keeps the row, the column and the box free of
      repeated values. */
  ghost predicate Legal(g: Board, n: nat, b: nat, row: nat, col: nat, v: int)
    requires IsDim(n, b) && Shaped(g, n) && row < n && col < n
  {
    NotInRow(g, n, row, v) && NotInCol(g, n, col, v) && NotInBox(g, n, b, row, col, v)
  }

  /** No two distinct filled cells that share a row, a column or a box hold
      the same value. */
  ghost predicate NoConflicts(g: Board, n: nat, b: nat)
    requires IsDim(n, b) && Shaped(g, n)
  {
    forall i1, j1, i2, j2 ::
      0 <= i1 < n && 0 <= j1 < n && 0 <= i2 < n && 0 <= j2 < n &&
      (i1 != i2 || j1 != j2) && Peer(b, i1, j1, i2, j2) && g[i1][j1] != 0
      ==> g[i1][j1] != g[i2][j2]
  }

  /** h keeps every filled cell of g. */
  ghost predicate Keeps(h: Board, g: Board, n: nat)
    requires Shaped(h, n) && Shaped(g, n)
  {
    forall i, j :: 0 <= i < n && 0 <= j < n && g[i][j] != 0 ==> h[i][j] == g[i][j]
  }

  /** S is a solution of the puzzle g: a full, conflict-free board with values
      1..n that keeps the givens of g. */
  ghost predicate SolutionOf(S: Board, g: Board, n: nat, b: nat)
    requires IsDim(n, b) && Shaped(g, n)
  {
    Shaped(S, n) && Filled(S, n) && Keeps(S, g, n) && NoConflicts(S, n, b)
  }

  /** g with v written at (r, c). */
  function Place(g: Board, r: nat, c: nat, v: int): (h: Board)
    requires r < |g| && c < |g[r]|
    ensures |h| == |g| && forall i :: 0 <= i < |g| ==> |h[i]| == |g[i]|
  {
    g[r := g[r][c := v]]
  }

  /** Writing a value 1..n into an empty cell keeps the board in range and
      keeps its givens, and so does anything that keeps the new board's. */
  lemma PlaceInEmpty(g: Board, n: nat, r: nat, c: nat, v: int)
    requires Shaped(g, n) && r < n && c < n && g[r][c] == 0 && 1 <= v <= n
    ensures InRange(g, n) ==> InRange(Place(g, r, c, v), n)
    ensures Keeps(Place(g, r, c, v), g, n)
    ensures forall S :: Shaped(S, n) && Keeps(S, Place(g, r, c, v), n) ==> Keeps(S, g, n)
  {
    var h := Place(g, r, c, v);
    forall S | Shaped(S, n) && Keeps(S, h, n) ensures Keeps(S, g, n) {
      forall i, j | 0 <= i < n && 0 <= j < n && g[i][j] != 0 ensures S[i][j] == g[i][j] {
        assert h[i][j] == g[i][j];
      }
    }
  }

  /** Clearing a cell that was empty before a placement restores the board. */
  lemma PlaceUndo(g: Board, r: nat, c: nat, v: int)
    requires r < |g| && c < |g[r]| && g[r][c] == 0
    ensures Place(Place(g, r, c, v), r, c, 0) == g
  {
    assert Place(Place(g, r, c, v), r, c, 0)[r] == g[r];
  }

  /** Number of zero entries of one row. */
  ghost function ZerosIn(s: seq<int>): nat
  {
    if s == [] then 0 else ZerosIn(s[..|s| - 1]) + (if s[|s| - 1] == 0 then 1 else 0)
  }

  /** Number of empty cells of the board: the measure that shrinks with every
      placement. */
  ghost function EmptyCount(g: Board): nat
  {
    if g == [] then 0 else EmptyCount(g[..|g| - 1]) + ZerosIn(g[|g| - 1])
  }

  lemma {:induction false} ZerosInUpdate(s: seq<int>, c: nat, v: int)
    requires c < |s| && s[c] == 0 && v != 0
    ensures ZerosIn(s[c := v]) + 1 == ZerosIn(s)
  {
    var t := s[c := v];
    if c < |s| - 1 {
      assert t[..|t| - 1] == s[..|s| - 1][c := v];
      ZerosInUpdate(s[..|s| - 1], c, v);
    } else {
      assert t[..|t| - 1] == s[..|s| - 1];
    }
  }

  /** Filling one empty cell removes exactly one empty cell. */
  lemma {:induction false} EmptyCountPlace(g: Board, r: nat, c: nat, v: int)
    requires r < |g| && c < |g[r]| && g[r][c] == 0 && v != 0
    ensures EmptyCount(Place(g, r, c, v)) + 1 == EmptyCount(g)
  {
    var h := Place(g, r, c, v);
    if r < |g| - 1 {
      assert h[..|h| - 1] == Place(g[..|g| - 1], r, c, v);
      assert h[|h| - 1] == g[|g| - 1];
      EmptyCountPlace(g[..|g| - 1], r, c, v);
    } else {
      assert h[..|h| - 1] == g[..|g| - 1];
      ZerosInUpdate(g[r], c, v);
    }
  }

  lemma {:induction false} ZerosInNone(s: seq<int>)
    requires forall j :: 0 <= j < |s| ==> s[j] != 0
    ensures ZerosIn(s) == 0
  {
    if s != [] {
      ZerosInNone(s[..|s| - 1]);
    }
  }

  /** A board without empty cells has an empty count of zero. */
  lemma {:induction false} EmptyCountNone(g: Board, n: nat)
    requires Shaped(g, n) && NoEmpty(g, n)
    ensures EmptyCount(g) == 0
  {
    if g != [] {
      var p := g[..|g| - 1];
      forall i | 0 <= i < |p|
        ensures forall j :: 0 <= j < |p[i]| ==> p[i][j] != 0
      {
        assert p[i] == g[i];
      }
      EmptyCountNoneRows(p);
      ZerosInNone(g[|g| - 1]);
    }
  }

  lemma {:induction false} EmptyCountNoneRows(g: Board)
    requires forall i :: 0 <= i < |g| ==> forall j :: 0 <= j < |g[i]| ==> g[i][j] != 0
    ensures EmptyCount(g) == 0
  {
    if g != [] {
      EmptyCountNoneRows(g[..|g| - 1]);
      ZerosInNone(g[|g| - 1]);
    }
  }

  /** Placing a legal value in an empty cell of a conflict-free board keeps it
      conflict-free. */
  lemma PlaceKeepsNoConflicts(g: Board, n: nat, b: nat, row: nat, col: nat, v: int)
    requires IsDim(n, b) && Shaped(g, n) && row < n && col < n && Legal(g, n, b, row, col, v)
    ensures NoConflicts(g, n, b) ==> NoConflicts(Place(g, row, col, v), n, b)
  {
    var h := Place(g, row, col, v);
    forall i1, j1, i2, j2 |
      0 <= i1 < n && 0 <= j1 < n && 0 <= i2 < n && 0 <= j2 < n &&
      (i1 != i2 || j1 != j2) && Peer(b, i1, j1, i2, j2) && h[i1][j1] != 0 && NoConflicts(g, n, b)
      ensures h[i1][j1] != h[i2][j2]
    {
      if i1 == row && j1 == col {
        assert h[i2][j2] == g[i2][j2];
        assert g[i2][j2] != v by {
          if i2 == row {
          } else if j2 == col {
          } else {
            assert SameBox(b, i2, j2, row, col);
          }
        }
      } else if i2 == row && j2 == col {
        assert h[i1][j1] == g[i1][j1];
        assert g[i1][j1] != v by {
          if i1 == row {
          } else if j1 == col {
          } else {
            assert SameBox(b, i1, j1, row, col);
          }
        }
      } else {
        assert h[i1][j1] == g[i1][j1] && h[i2][j2] == g[i2][j2];
      }
    }
  }

  /** Whatever a solution holds in an empty cell is a legal placement there:
      the values a search tries at that cell must include it. */
  lemma SolutionValueIsLegal(S: Board, g: Board, n: nat, b: nat, row: nat, col: nat)
    requires IsDim(n, b) && Shaped(g, n) && row < n && col < n
    requires SolutionOf(S, g, n, b) && g[row][col] == 0
    ensures 1 <= S[row][col] <= n && Legal(g, n, b, row, col, S[row][col])
  {
    var v := S[row][col];
    forall x | 0 <= x < n ensures g[row][x] != v {
      if x != col && g[row][x] != 0 {
        assert Peer(b, row, col, row, x) && S[row][x] == g[row][x];
      }
    }
    forall x | 0 <= x < n ensures g[x][col] != v {
      if x != row && g[x][col] != 0 {
        assert Peer(b, row, col, x, col) && S[x][col] == g[x][col];
      }
    }
    forall i, j | 0 <= i < n && 0 <= j < n && SameBox(b, i, j, row, col) ensures g[i][j] != v {
      if (i != row || j != col) && g[i][j] != 0 {
        assert Peer(b, row, col, i, j) && S[i][j] == g[i][j];
      }
    }
  }

  /** A solution of g that holds v at (row, col) is also a solution of g with v
      placed there. */
  lemma SolutionOfPlace(S: Board, g: Board, n: nat, b: nat, row: nat, col: nat)
    requires IsDim(n, b) && Shaped(g, n) && row < n && col < n
    requires SolutionOf(S, g, n, b)
    ensures SolutionOf(S, Place(g, row, col, S[row][col]), n, b)
  {
  }
}
