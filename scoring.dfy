/** The least-constraining-value count: for a candidate value of one cell, how
    many empty cells still have that value open, counted the way the solver
    scans for them — a pass along the row and the column together, then a
    pass over the box, with no attempt to count a cell only once. */
module Scoring {
  import opened Grid
  import opened Domains

  /** 1 when (r, c) is empty and v is still in its domain, else 0. */
  ghost function Hit(g: Board, d: DomainGrid, n: nat, r: nat, c: nat, v: int): nat
    requires Shaped(g, n) && Shaped(d, n) && r < n && c < n
  {
    if g[r][c] == 0 && v in d[r][c] then 1 else 0
  }

  /** The row-and-column pass over positions x < k: each step looks at
      (row, x) and at (x, col). */
  ghost function LineScore(g: Board, d: DomainGrid, n: nat, row: nat, col: nat, v: int, k: nat): nat
    requires Shaped(g, n) && Shaped(d, n) && row < n && col < n && k <= n
  {
    if k == 0 then 0
    else LineScore(g, d, n, row, col, v, k - 1) + Hit(g, d, n, row, k - 1, v) + Hit(g, d, n, k - 1, col, v)
  }

  /** Cells (r, sc), ..., (r, sc + k - 1) of one box row. */
  ghost function BoxRowScore(g: Board, d: DomainGrid, n: nat, r: nat, sc: nat, v: int, k: nat): nat
    requires Shaped(g, n) && Shaped(d, n) && r < n && sc + k <= n
  {
    if k == 0 then 0
    else BoxRowScore(g, d, n, r, sc, v, k - 1) + Hit(g, d, n, r, sc + k - 1, v)
  }

  /** The first k rows of the b-by-b box whose corner is (sr, sc). */
  ghost function BoxScore(g: Board, d: DomainGrid, n: nat, b: nat, sr: nat, sc: nat, v: int, k: nat): nat
    requires Shaped(g, n) && Shaped(d, n) && sr + k <= n && sc + b <= n
  {
    if k == 0 then 0
    else BoxScore(g, d, n, b, sr, sc, v, k - 1) + BoxRowScore(g, d, n, sr + k - 1, sc, v, b)
  }

  /** The count the LCV ordering sorts by. */
  ghost function Score(g: Board, d: DomainGrid, n: nat, b: nat, row: nat, col: nat, v: int): nat
    requires IsDim(n, b) && Shaped(g, n) && Shaped(d, n) && row < n && col < n
  {
    BoxRange(n, b, row, row);
    BoxRange(n, b, col, col);
    LineScore(g, d, n, row, col, v, n) + BoxScore(g, d, n, b, BoxStart(b, row), BoxStart(b, col), v, b)
  }

  /** The domains with the one at (row, col) emptied: scanning these counts
      only the cells other than (row, col). */
  ghost function WithoutTarget(d: DomainGrid, n: nat, row: nat, col: nat): (e: DomainGrid)
    requires Shaped(d, n) && row < n && col < n
    ensures Shaped(e, n)
  {
    d[row := d[row][col := {}]]
  }

  lemma {:induction false} LineScoreSplit(g: Board, d: DomainGrid, n: nat, row: nat, col: nat, v: int, k: nat)
    requires Shaped(g, n) && Shaped(d, n) && row < n && col < n && k <= n
    ensures LineScore(g, d, n, row, col, v, k) ==
      LineScore(g, WithoutTarget(d, n, row, col), n, row, col, v, k) +
      (if col < k then Hit(g, d, n, row, col, v) else 0) + (if row < k then Hit(g, d, n, row, col, v) else 0)
  {
    if k > 0 {
      LineScoreSplit(g, d, n, row, col, v, k - 1);
    }
  }

  lemma {:induction false} BoxRowScoreSplit(g: Board, d: DomainGrid, n: nat, r: nat, sc: nat, v: int, k: nat, row: nat, col: nat)
    requires Shaped(g, n) && Shaped(d, n) && r < n && sc + k <= n && row < n && col < n
    ensures BoxRowScore(g, d, n, r, sc, v, k) ==
      BoxRowScore(g, WithoutTarget(d, n, row, col), n, r, sc, v, k) +
      (if r == row && sc <= col < sc + k then Hit(g, d, n, row, col, v) else 0)
  {
    if k > 0 {
      BoxRowScoreSplit(g, d, n, r, sc, v, k - 1, row, col);
    }
  }

  lemma {:induction false} BoxScoreSplit(g: Board, d: DomainGrid, n: nat, b: nat, sr: nat, sc: nat, v: int, k: nat, row: nat, col: nat)
    requires Shaped(g, n) && Shaped(d, n) && sr + k <= n && sc + b <= n && row < n && col < n
    ensures BoxScore(g, d, n, b, sr, sc, v, k) ==
      BoxScore(g, WithoutTarget(d, n, row, col), n, b, sr, sc, v, k) +
      (if sr <= row < sr + k && sc <= col < sc + b then Hit(g, d, n, row, col, v) else 0)
  {
    if k > 0 {
      BoxScoreSplit(g, d, n, b, sr, sc, v, k - 1, row, col);
      BoxRowScoreSplit(g, d, n, sr + k - 1, sc, v, b, row, col);
    }
  }

  /** The scans do not skip the cell being decided: the row pass, the column
      pass and the box pass each count it once more, on top of the count over
      the other cells. */
  lemma ScoreCountsTargetThrice(g: Board, d: DomainGrid, n: nat, b: nat, row: nat, col: nat, v: int)
    requires IsDim(n, b) && Shaped(g, n) && Shaped(d, n) && row < n && col < n
    ensures Score(g, d, n, b, row, col, v) ==
      Score(g, WithoutTarget(d, n, row, col), n, b, row, col, v) + 3 * Hit(g, d, n, row, col, v)
  {
    BoxRange(n, b, row, row);
    BoxRange(n, b, col, col);
    LineScoreSplit(g, d, n, row, col, v, n);
    BoxScoreSplit(g, d, n, b, BoxStart(b, row), BoxStart(b, col), v, b, row, col);
  }

  /** For the values of an empty cell's own domain the self-count is the same
      3 each time, so ordering by the count is ordering by the count over the
      other cells alone. */
  lemma SelfCountKeepsOrder(g: Board, d: DomainGrid, n: nat, b: nat, row: nat, col: nat, u: int, v: int)
    requires IsDim(n, b) && Shaped(g, n) && Shaped(d, n) && row < n && col < n
    requires g[row][col] == 0 && u in d[row][col] && v in d[row][col]
    ensures Score(g, d, n, b, row, col, u) == Score(g, WithoutTarget(d, n, row, col), n, b, row, col, u) + 3
    ensures Score(g, d, n, b, row, col, u) - Score(g, d, n, b, row, col, v) ==
      Score(g, WithoutTarget(d, n, row, col), n, b, row, col, u) - Score(g, WithoutTarget(d, n, row, col), n, b, row, col, v)
  {
    ScoreCountsTargetThrice(g, d, n, b, row, col, u);
    ScoreCountsTargetThrice(g, d, n, b, row, col, v);
  }

  /** The empty cells of row `row` among columns 0..k-1 still open to v. */
  ghost function RowHits(g: Board, d: DomainGrid, n: nat, row: nat, v: int, k: nat): set<int>
    requires Shaped(g, n) && Shaped(d, n) && row < n && k <= n
  {
    set x | 0 <= x < k && Hit(g, d, n, row, x, v) == 1
  }

  /** The empty cells of column `col` among rows 0..k-1 still open to v. */
  ghost function ColHits(g: Board, d: DomainGrid, n: nat, col: nat, v: int, k: nat): set<int>
    requires Shaped(g, n) && Shaped(d, n) && col < n && k <= n
  {
    set x | 0 <= x < k && Hit(g, d, n, x, col, v) == 1
  }

  /** The empty cells still open to v in rows sr..sr+k-1 and columns
      sc..sc+m-1. */
  ghost function RectHits(g: Board, d: DomainGrid, n: nat, sr: nat, sc: nat, k: nat, m: nat, v: int): set<(int, int)>
    requires Shaped(g, n) && Shaped(d, n) && sr + k <= n && sc + m <= n
  {
    set i, j | sr <= i < sr + k && sc <= j < sc + m && Hit(g, d, n, i, j, v) == 1 :: (i, j)
  }

  /** The empty cells of the box holding (row, col) still open to v. */
  ghost function BoxHits(g: Board, d: DomainGrid, n: nat, b: nat, row: nat, col: nat, v: int): set<(int, int)>
    requires IsDim(n, b) && Shaped(g, n) && Shaped(d, n) && row < n && col < n
  {
    set i, j | 0 <= i < n && 0 <= j < n && SameBox(b, i, j, row, col) && Hit(g, d, n, i, j, v) == 1 :: (i, j)
  }

  lemma RowHitsStep(g: Board, d: DomainGrid, n: nat, row: nat, v: int, k: nat)
    requires Shaped(g, n) && Shaped(d, n) && row < n && 0 < k <= n
    ensures |RowHits(g, d, n, row, v, k)| == |RowHits(g, d, n, row, v, k - 1)| + Hit(g, d, n, row, k - 1, v)
  {
    var before := RowHits(g, d, n, row, v, k - 1);
    if Hit(g, d, n, row, k - 1, v) == 1 {
      assert RowHits(g, d, n, row, v, k) == before + {k - 1};
    } else {
      assert RowHits(g, d, n, row, v, k) == before;
    }
  }

  lemma ColHitsStep(g: Board, d: DomainGrid, n: nat, col: nat, v: int, k: nat)
    requires Shaped(g, n) && Shaped(d, n) && col < n && 0 < k <= n
    ensures |ColHits(g, d, n, col, v, k)| == |ColHits(g, d, n, col, v, k - 1)| + Hit(g, d, n, k - 1, col, v)
  {
    var before := ColHits(g, d, n, col, v, k - 1);
    if Hit(g, d, n, k - 1, col, v) == 1 {
      assert ColHits(g, d, n, col, v, k) == before + {k - 1};
    } else {
      assert ColHits(g, d, n, col, v, k) == before;
    }
  }

  lemma {:induction false} LineScoreCounts(g: Board, d: DomainGrid, n: nat, row: nat, col: nat, v: int, k: nat)
    requires Shaped(g, n) && Shaped(d, n) && row < n && col < n && k <= n
    ensures LineScore(g, d, n, row, col, v, k) == |RowHits(g, d, n, row, v, k)| + |ColHits(g, d, n, col, v, k)|
  {
    if k > 0 {
      LineScoreCounts(g, d, n, row, col, v, k - 1);
      RowHitsStep(g, d, n, row, v, k);
      ColHitsStep(g, d, n, col, v, k);
    }
  }

  /** Membership in RectHits, cell by cell. */
  lemma RectHitsMember(g: Board, d: DomainGrid, n: nat, sr: nat, sc: nat, k: nat, m: nat, v: int, i: int, j: int)
    requires Shaped(g, n) && Shaped(d, n) && sr + k <= n && sc + m <= n
    ensures (i, j) in RectHits(g, d, n, sr, sc, k, m, v) <==>
      sr <= i < sr + k && sc <= j < sc + m && Hit(g, d, n, i, j, v) == 1
  {
    if sr <= i < sr + k && sc <= j < sc + m && Hit(g, d, n, i, j, v) == 1 {
      assert (i, j) in RectHits(g, d, n, sr, sc, k, m, v);
    }
  }

  /** The hits of a box row up to column sc + m - 1: those up to the column
      before, and that cell when it is a hit. */
  lemma RectHitsLastColSet(g: Board, d: DomainGrid, n: nat, r: nat, sc: nat, v: int, m: nat)
    requires Shaped(g, n) && Shaped(d, n) && r < n && sc + m <= n && 0 < m
    ensures RectHits(g, d, n, r, sc, 1, m, v) == RectHits(g, d, n, r, sc, 1, m - 1, v) +
      (if Hit(g, d, n, r, sc + m - 1, v) == 1 then {(r, sc + m - 1)} else {})
  {
    var after := RectHits(g, d, n, r, sc, 1, m, v);
    var before := RectHits(g, d, n, r, sc, 1, m - 1, v);
    var added: set<(int, int)> := if Hit(g, d, n, r, sc + m - 1, v) == 1 then {(r, sc + m - 1)} else {};
    forall p | p in after ensures p in before + added {
      RectHitsMember(g, d, n, r, sc, 1, m - 1, v, p.0, p.1);
    }
    forall p | p in before + added ensures p in after {
      RectHitsMember(g, d, n, r, sc, 1, m, v, p.0, p.1);
    }
  }

  /** A box row has as many hits up to column sc + m - 1 as up to the
      column before, plus one when that cell is a hit. */
  lemma RectHitsLastCol(g: Board, d: DomainGrid, n: nat, r: nat, sc: nat, v: int, m: nat)
    requires Shaped(g, n) && Shaped(d, n) && r < n && sc + m <= n && 0 < m
    ensures |RectHits(g, d, n, r, sc, 1, m, v)| ==
      |RectHits(g, d, n, r, sc, 1, m - 1, v)| + Hit(g, d, n, r, sc + m - 1, v)
  {
    RectHitsLastColSet(g, d, n, r, sc, v, m);
    RectHitsMember(g, d, n, r, sc, 1, m - 1, v, r, sc + m - 1);
  }

  /** The first k rows of a rectangle have as many hits as the first k - 1
      rows plus row sr + k - 1: the two parts do not overlap. */
  lemma RectHitsLastRow(g: Board, d: DomainGrid, n: nat, sr: nat, sc: nat, k: nat, m: nat, v: int)
    requires Shaped(g, n) && Shaped(d, n) && sr + k <= n && sc + m <= n && 0 < k
    ensures |RectHits(g, d, n, sr, sc, k, m, v)| ==
      |RectHits(g, d, n, sr, sc, k - 1, m, v)| + |RectHits(g, d, n, sr + k - 1, sc, 1, m, v)|
  {
    var above := RectHits(g, d, n, sr, sc, k - 1, m, v);
    var last := RectHits(g, d, n, sr + k - 1, sc, 1, m, v);
    var all := RectHits(g, d, n, sr, sc, k, m, v);
    forall p | p in last ensures p !in above {
      RectHitsMember(g, d, n, sr, sc, k - 1, m, v, p.0, p.1);
      RectHitsMember(g, d, n, sr + k - 1, sc, 1, m, v, p.0, p.1);
    }
    forall p | p in all ensures p in above + last {
      RectHitsMember(g, d, n, sr, sc, k, m, v, p.0, p.1);
      RectHitsMember(g, d, n, sr, sc, k - 1, m, v, p.0, p.1);
      RectHitsMember(g, d, n, sr + k - 1, sc, 1, m, v, p.0, p.1);
    }
    forall p | p in above + last ensures p in all {
      RectHitsMember(g, d, n, sr, sc, k, m, v, p.0, p.1);
      RectHitsMember(g, d, n, sr, sc, k - 1, m, v, p.0, p.1);
      RectHitsMember(g, d, n, sr + k - 1, sc, 1, m, v, p.0, p.1);
    }
    assert all == above + last;
    DisjointUnionSize(above, last);
  }

  lemma {:induction false} DisjointUnionSize<T>(a: set<T>, c: set<T>)
    requires a * c == {}
    ensures |a + c| == |a| + |c|
  {
    if c != {} {
      var x :| x in c;
      DisjointUnionSize(a, c - {x});
      assert a + c == (a + (c - {x})) + {x};
    }
  }

  lemma {:induction false} BoxRowScoreCounts(g: Board, d: DomainGrid, n: nat, r: nat, sc: nat, v: int, m: nat)
    requires Shaped(g, n) && Shaped(d, n) && r < n && sc + m <= n
    ensures BoxRowScore(g, d, n, r, sc, v, m) == |RectHits(g, d, n, r, sc, 1, m, v)|
  {
    if m > 0 {
      BoxRowScoreCounts(g, d, n, r, sc, v, m - 1);
      RectHitsLastCol(g, d, n, r, sc, v, m);
    }
  }

  lemma {:induction false} BoxScoreCounts(g: Board, d: DomainGrid, n: nat, b: nat, sr: nat, sc: nat, v: int, k: nat)
    requires Shaped(g, n) && Shaped(d, n) && sr + k <= n && sc + b <= n
    ensures BoxScore(g, d, n, b, sr, sc, v, k) == |RectHits(g, d, n, sr, sc, k, b, v)|
  {
    if k > 0 {
      BoxScoreCounts(g, d, n, b, sr, sc, v, k - 1);
      BoxRowScoreCounts(g, d, n, sr + k - 1, sc, v, b);
      RectHitsLastRow(g, d, n, sr, sc, k, b, v);
    }
  }

  /** The LCV count is the number of empty cells still open to v in the row,
      plus the number in the column, plus the number in the box. The three
      sets overlap: the cell itself is in all three, and a cell sharing the
      box and the row (or the column) is in two, so it is counted twice. */
  lemma ScoreByHitSets(g: Board, d: DomainGrid, n: nat, b: nat, row: nat, col: nat, v: int)
    requires IsDim(n, b) && Shaped(g, n) && Shaped(d, n) && row < n && col < n
    ensures Score(g, d, n, b, row, col, v) ==
      |RowHits(g, d, n, row, v, n)| + |ColHits(g, d, n, col, v, n)| + |BoxHits(g, d, n, b, row, col, v)|
  {
    var sr, sc := BoxStart(b, row), BoxStart(b, col);
    BoxRange(n, b, row, row);
    BoxRange(n, b, col, col);
    LineScoreCounts(g, d, n, row, col, v, n);
    BoxScoreCounts(g, d, n, b, sr, sc, v, b);
    assert BoxHits(g, d, n, b, row, col, v) == RectHits(g, d, n, sr, sc, b, b, v) by {
      forall i, j | 0 <= i < n && 0 <= j < n
        ensures SameBox(b, i, j, row, col) <==> sr <= i < sr + b && sc <= j < sc + b
      {
        BoxRange(n, b, row, i);
        BoxRange(n, b, col, j);
      }
    }
  }
}
