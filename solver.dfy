/** The solver: the closure built by one call of solveSudokuCSP. Its
    configuration (board side, box side, the MRV and LCV switches) is fixed
    for the solve; the opened-states counter is the one piece of its own
    state that changes. The board is an n-by-n array written in place by the
    search; each search frame owns its own n-by-n array of domains. */
module Search {
  import opened Grid
  import opened Domains
  import opened Scoring

  datatype Option<T> = None | Some(value: T)

  datatype Cell = Cell(row: nat, col: nat)

  /** What one solve reports: the board failed the shape check, was solved,
      or has no solution, with the number of placements made. */
  datatype Outcome = Invalid | Solved(openedStates: nat) | NoSolution(openedStates: nat)

  /** Entries (i, 0), ..., (i, k - 1) of the array. */
  ghost function RowPrefix<T>(a: array2<T>, i: nat, k: nat): (s: seq<T>)
    requires i < a.Length0 && k <= a.Length1
    reads a
    ensures |s| == k && forall j :: 0 <= j < k ==> s[j] == a[i, j]
  {
    if k == 0 then [] else RowPrefix(a, i, k - 1) + [a[i, k - 1]]
  }

  /** Rows 0, ..., k - 1 of the array. */
  ghost function RowsPrefix<T>(a: array2<T>, k: nat): (g: seq<seq<T>>)
    requires k <= a.Length0
    reads a
    ensures |g| == k && forall i :: 0 <= i < k ==> |g[i]| == a.Length1
    ensures forall i, j {:trigger g[i][j]} :: 0 <= i < k && 0 <= j < a.Length1 ==> g[i][j] == a[i, j]
  {
    if k == 0 then [] else RowsPrefix(a, k - 1) + [RowPrefix(a, k - 1, a.Length1)]
  }

  /** The array's entries as rows of values. */
  ghost function Contents<T>(a: array2<T>): (g: seq<seq<T>>)
    reads a
    ensures |g| == a.Length0 && forall i :: 0 <= i < a.Length0 ==> |g[i]| == a.Length1
    ensures forall i, j {:trigger g[i][j]} :: 0 <= i < a.Length0 && 0 <= j < a.Length1 ==> g[i][j] == a[i, j]
  {
    RowsPrefix(a, a.Length0)
  }

  lemma ContentsAre<T>(a: array2<T>, g: seq<seq<T>>)
    requires Shaped(g, a.Length0) && a.Length1 == a.Length0
    requires forall i, j :: 0 <= i < a.Length0 && 0 <= j < a.Length1 ==> a[i, j] == g[i][j]
    ensures Contents(a) == g
  {
    var c := Contents(a);
    forall i | 0 <= i < a.Length0 ensures c[i] == g[i] {
    }
  }

  /** (i, j) comes before (r, c) in row-major order. */
  ghost predicate Before(i: nat, j: nat, r: nat, c: nat) {
    i < r || (i == r && j < c)
  }

  /** Strictly ascending. */
  ghost predicate Increasing(s: seq<int>) {
    forall i, j :: 0 <= i < j < |s| ==> s[i] < s[j]
  }

  /** u goes before w when ordered by constraint count, ties broken by value. */
  ghost predicate FewerConstraints(constraints: map<int, nat>, u: int, w: int)
    requires u in constraints && w in constraints
  {
    constraints[u] < constraints[w] || (constraints[u] == constraints[w] && u < w)
  }

  /** Every element is in constraints and each pair is in FewerConstraints order. */
  ghost predicate OrderedBy(constraints: map<int, nat>, s: seq<int>) {
    forall i, j :: 0 <= i < j < |s| ==>
      s[i] in constraints && s[j] in constraints && FewerConstraints(constraints, s[i], s[j])
  }

  /** Where the elements of s[..p] + [v] + s[p..] come from. */
  lemma InsertAt(s: seq<int>, p: nat, v: int)
    requires p <= |s|
    ensures var t := s[..p] + [v] + s[p..];
      |t| == |s| + 1 && t[p] == v &&
      (forall q :: 0 <= q < p ==> t[q] == s[q]) &&
      (forall q :: p < q < |t| ==> t[q] == s[q - 1]) &&
      multiset(t) == multiset(s) + multiset{v}
  {
    assert s[..p] + s[p..] == s;
  }

  /** Inserting a value larger than every element, just before the first
      element with a higher count, keeps the order. */
  lemma InsertKeepsOrder(constraints: map<int, nat>, s: seq<int>, t: seq<int>, p: nat, v: int)
    requires OrderedBy(constraints, s) && v in constraints && p <= |s|
    requires forall q :: 0 <= q < |s| ==> s[q] in constraints && s[q] < v
    requires forall q :: 0 <= q < p ==> constraints[s[q]] <= constraints[v]
    requires p < |s| ==> constraints[v] < constraints[s[p]]
    requires |t| == |s| + 1 && t[p] == v
    requires forall q :: 0 <= q < p ==> t[q] == s[q]
    requires forall q :: p < q < |t| ==> t[q] == s[q - 1]
    ensures OrderedBy(constraints, t)
    ensures forall q :: 0 <= q < |t| ==> t[q] in constraints && t[q] <= v
  {
    forall i, j | 0 <= i < j < |t|
      ensures t[i] in constraints && t[j] in constraints && FewerConstraints(constraints, t[i], t[j])
    {
      if j < p {
        assert t[i] == s[i] && t[j] == s[j];
      } else if i > p {
        assert t[i] == s[i - 1] && t[j] == s[j - 1];
      } else if i == p {
        assert t[j] == s[j - 1] && constraints[s[p]] <= constraints[s[j - 1]];
      } else if j == p {
        assert t[i] == s[i];
      } else {
        assert t[i] == s[i] && t[j] == s[j - 1];
      }
    }
  }

  /** One step of the stable insertion sort: values[k], larger than every
      value sorted so far, goes in just before the first one with a higher
      count. The result holds values[..k + 1], is ordered by (count, value),
      and stays below the next value to come. */
  lemma InsertStep(constraints: map<int, nat>, values: seq<int>, sorted: seq<int>, k: nat, p: nat)
    requires Increasing(values) && k < |values| && forall i :: 0 <= i < |values| ==> values[i] in constraints
    requires multiset(sorted) == multiset(values[..k]) && OrderedBy(constraints, sorted)
    requires forall q :: 0 <= q < |sorted| ==> sorted[q] in constraints && sorted[q] < values[k]
    requires p <= |sorted| && forall q :: 0 <= q < p ==> constraints[sorted[q]] <= constraints[values[k]]
    requires p < |sorted| ==> constraints[values[k]] < constraints[sorted[p]]
    ensures var t := sorted[..p] + [values[k]] + sorted[p..];
      multiset(t) == multiset(values[..k + 1]) && OrderedBy(constraints, t) &&
      (forall q :: 0 <= q < |t| ==> t[q] in constraints) &&
      (k + 1 < |values| ==> forall q :: 0 <= q < |t| ==> t[q] < values[k + 1])
  {
    var v := values[k];
    var t := sorted[..p] + [v] + sorted[p..];
    InsertAt(sorted, p, v);
    InsertKeepsOrder(constraints, sorted, t, p, v);
    assert values[..k + 1] == values[..k] + [v];
    if k + 1 < |values| {
      assert v < values[k + 1];
    }
  }

  /** Every solution of g holds at (row, col) one of the values in cands. */
  ghost predicate Covers(g: Board, n: nat, b: nat, row: nat, col: nat, cands: seq<int>)
    requires IsDim(n, b) && Shaped(g, n)
  {
    forall S :: SolutionOf(S, g, n, b) ==> Shaped(S, n) && row < n && col < n && S[row][col] in cands
  }

  /** A value listed from a domain within 1..n is itself within 1..n. */
  lemma CandidateInRange(d: DomainGrid, n: nat, row: nat, col: nat, cands: seq<int>, k: nat)
    requires Shaped(d, n) && Within(d, n) && row < n && col < n && k < |cands|
    requires multiset(cands) == multiset(d[row][col])
    ensures 1 <= cands[k] <= n
  {
    assert cands[k] in multiset(d[row][col]);
  }

  /** With exact domains, the values of the chosen cell's domain cover every
      solution: a search that tries them all misses none. */
  lemma CoversAtStart(g: Board, d: DomainGrid, n: nat, b: nat, row: nat, col: nat, cands: seq<int>)
    requires IsDim(n, b) && Shaped(g, n) && Shaped(d, n) && row < n && col < n
    requires g[row][col] == 0 && multiset(cands) == multiset(d[row][col])
    ensures Exact(g, d, n, b) ==> Covers(g, n, b, row, col, cands)
  {
    forall S | Exact(g, d, n, b) && SolutionOf(S, g, n, b) ensures S[row][col] in cands {
      SolutionValueIsLegal(S, g, n, b, row, col);
      assert S[row][col] in multiset(d[row][col]);
    }
  }

  /** A candidate that is not legal at (row, col), or whose placement leads to
      no solution, can be dropped from a covering list. */
  lemma CoversAfterFailure(g: Board, d: DomainGrid, n: nat, b: nat, row: nat, col: nat, cands: seq<int>, k: nat)
    requires IsDim(n, b) && Shaped(g, n) && Shaped(d, n) && row < n && col < n && k < |cands| && g[row][col] == 0
    requires Exact(g, d, n, b) ==> Covers(g, n, b, row, col, cands[k..])
    requires Exact(g, d, n, b) && Legal(g, n, b, row, col, cands[k]) ==>
      forall S :: !SolutionOf(S, Place(g, row, col, cands[k]), n, b)
    ensures Exact(g, d, n, b) ==> Covers(g, n, b, row, col, cands[k + 1..])
  {
    forall S | Exact(g, d, n, b) && SolutionOf(S, g, n, b) ensures S[row][col] in cands[k + 1..] {
      SolutionValueIsLegal(S, g, n, b, row, col);
      if S[row][col] == cands[k] {
        SolutionOfPlace(S, g, n, b, row, col);
      }
      assert cands[k..] == [cands[k]] + cands[k + 1..];
    }
  }

  /** Once every candidate has been dropped, nothing covers the solutions,
      so there are none. */
  lemma CoversNone(g: Board, d: DomainGrid, n: nat, b: nat, row: nat, col: nat, cands: seq<int>)
    requires IsDim(n, b) && Shaped(g, n) && Shaped(d, n)
    requires Exact(g, d, n, b) ==> Covers(g, n, b, row, col, cands[|cands|..])
    ensures Exact(g, d, n, b) ==> forall S :: !SolutionOf(S, g, n, b)
  {
  }

  /** What one branch of the search relies on when it places a legal num in
      the empty cell (row, col) and propagates it: the board stays in range
      and has one empty cell fewer, the domains stay within 1..n, exactness
      and freedom from conflicts carry over, and keeping the new board's
      givens keeps the old board's. */
  lemma BranchStep(g: Board, d: DomainGrid, n: nat, b: nat, row: nat, col: nat, num: int)
    requires IsDim(n, b) && Shaped(g, n) && Shaped(d, n) && row < n && col < n
    requires InRange(g, n) && Within(d, n)
    requires g[row][col] == 0 && 1 <= num <= n && Legal(g, n, b, row, col, num)
    ensures InRange(Place(g, row, col, num), n) && Within(Propagate(d, n, b, row, col, num), n)
    ensures EmptyCount(Place(g, row, col, num)) + 1 == EmptyCount(g)
    ensures Exact(g, d, n, b) ==> Exact(Place(g, row, col, num), Propagate(d, n, b, row, col, num), n, b)
    ensures NoConflicts(g, n, b) ==> NoConflicts(Place(g, row, col, num), n, b)
    ensures forall S :: Shaped(S, n) && Keeps(S, Place(g, row, col, num), n) ==> Keeps(S, g, n)
  {
    PropagateOnlyRemoves(d, n, b, row, col, num);
    EmptyCountPlace(g, row, col, num);
    PlaceInEmpty(g, n, row, col, num);
    PropagateKeepsExact(g, d, n, b, row, col, num);
    PlaceKeepsNoConflicts(g, n, b, row, col, num);
  }

  class Solver {
    const n: nat
    const b: nat
    const useMRV: bool
    const useLCV: bool
    var openedStates: nat

    ghost predicate Valid() {
      IsDim(n, b)
    }

    ghost predicate Fits<T>(a: array2<T>) {
      a.Length0 == n && a.Length1 == n
    }

    constructor (n: nat, b: nat, useMRV: bool, useLCV: bool)
      requires IsDim(n, b)
      ensures Valid() && this.n == n && this.b == b
      ensures this.useMRV == useMRV && this.useLCV == useLCV && openedStates == 0
    {
      this.n := n;
      this.b := b;
      this.useMRV := useMRV;
      this.useLCV := useLCV;
      openedStates := 0;
    }

    /** The shape check run before anything else: every cell holds 0..n. */
    method IsBoardValid(board: array2<int>) returns (ok: bool)
      requires Fits(board)
      ensures ok <==> InRange(Contents(board), n)
    {
      ghost var g := Contents(board);
      for col := 0 to n
        invariant forall i, j :: 0 <= i < col && 0 <= j < n ==> 0 <= g[i][j] <= n
      {
        for row := 0 to n
          invariant forall i, j :: 0 <= i < col && 0 <= j < n ==> 0 <= g[i][j] <= n
          invariant forall j :: 0 <= j < row ==> 0 <= g[col][j] <= n
        {
          if board[col, row] > n || board[col, row] < 0 {
            assert g[col][row] == board[col, row];
            return false;
          }
        }
      }
      return true;
    }

    /** num may go at (row, col): it is nowhere in the row, the column or the
        box. */
    method IsValid(board: array2<int>, row: nat, col: nat, num: int) returns (ok: bool)
      requires Valid() && Fits(board) && row < n && col < n
      ensures ok == Legal(Contents(board), n, b, row, col, num)
    {
      ghost var g := Contents(board);
      for x := 0 to n
        invariant forall y :: 0 <= y < x ==> g[row][y] != num && g[y][col] != num
      {
        if board[row, x] == num || board[x, col] == num {
          assert g[row][x] == num || g[x][col] == num;
          return false;
        }
      }
      var startRow := BoxStart(b, row);
      var startCol := BoxStart(b, col);
      BoxRange(n, b, row, row);
      BoxRange(n, b, col, col);
      for i := 0 to b
        invariant forall r, c :: startRow <= r < startRow + i && startCol <= c < startCol + b ==> g[r][c] != num
      {
        var boxRow := startRow + i;
        for j := 0 to b
          invariant forall r, c :: startRow <= r < startRow + i && startCol <= c < startCol + b ==> g[r][c] != num
          invariant forall c :: startCol <= c < startCol + j ==> g[boxRow][c] != num
        {
          if board[boxRow, startCol + j] == num {
            BoxRange(n, b, row, boxRow);
            BoxRange(n, b, col, startCol + j);
            assert SameBox(b, boxRow, startCol + j, row, col) && g[boxRow][startCol + j] == num;
            return false;
          }
        }
      }
      forall r, c | 0 <= r < n && 0 <= c < n && SameBox(b, r, c, row, col)
        ensures g[r][c] != num
      {
        BoxRange(n, b, row, r);
        BoxRange(n, b, col, c);
      }
      return true;
    }

    /** The legal values of one cell, tried in ascending order. */
    method CellCandidates(board: array2<int>, row: nat, col: nat) returns (domain: set<int>)
      requires Valid() && Fits(board) && row < n && col < n
      ensures domain == Candidates(Contents(board), n, b, row, col)
    {
      domain := {};
      for num := 1 to n + 1
        invariant domain == set v | 1 <= v < num && Legal(Contents(board), n, b, row, col, v)
      {
        var ok := IsValid(board, row, col, num);
        if ok {
          domain := domain + {num};
        }
      }
    }

    /** Domains for a fresh search: each empty cell gets exactly its legal
        values, each filled cell nothing. */
    method InitializeDomains(board: array2<int>) returns (domains: array2<set<int>>)
      requires Valid() && Fits(board)
      ensures fresh(domains) && Fits(domains)
      ensures Exact(Contents(board), Contents(domains), n, b)
    {
      domains := new set<int>[n, n]((_, _) => {});
      ghost var g := Contents(board);
      for row := 0 to n
        invariant forall i, j :: 0 <= i < row && 0 <= j < n ==> domains[i, j] == InitialDomain(g, n, b, i, j)
        invariant forall i, j :: row <= i < n && 0 <= j < n ==> domains[i, j] == {}
      {
        for col := 0 to n
          invariant forall i, j :: 0 <= i < row && 0 <= j < n ==> domains[i, j] == InitialDomain(g, n, b, i, j)
          invariant forall j :: 0 <= j < col ==> domains[row, j] == InitialDomain(g, n, b, row, j)
          invariant forall i, j :: row <= i < n && 0 <= j < n && (i != row || col <= j) ==> domains[i, j] == {}
        {
          if board[row, col] == 0 {
            domains[row, col] := CellCandidates(board, row, col);
          }
        }
      }
    }

    /** The cell to branch on, or None when the board is full. Without MRV:
        the first empty cell in row-major order. With MRV: an empty cell
        whose domain is smallest, the first such one in row-major order. */
    method SelectCell(board: array2<int>, domains: array2<set<int>>) returns (cell: Option<Cell>)
      requires Fits(board) && Fits(domains)
      ensures cell.None? <==> NoEmpty(Contents(board), n)
      ensures cell.Some? ==> cell.value.row < n && cell.value.col < n && board[cell.value.row, cell.value.col] == 0
      ensures cell.Some? && !useMRV ==> forall i, j ::
        0 <= i < n && 0 <= j < n && Before(i, j, cell.value.row, cell.value.col) ==> board[i, j] != 0
      ensures cell.Some? && useMRV ==> forall i, j ::
        0 <= i < n && 0 <= j < n && board[i, j] == 0 ==>
        |domains[cell.value.row, cell.value.col]| <= |domains[i, j]|
      ensures cell.Some? && useMRV ==> forall i, j ::
        0 <= i < n && 0 <= j < n && board[i, j] == 0 && Before(i, j, cell.value.row, cell.value.col) ==>
        |domains[cell.value.row, cell.value.col]| < |domains[i, j]|
    {
      if useMRV {
        // No cell chosen yet stands for a smallest size of "infinity".
        var minSize := 0;
        var bestCell: Option<Cell> := None;
        for row := 0 to n
          invariant bestCell.None? ==> forall i, j :: 0 <= i < row && 0 <= j < n ==> board[i, j] != 0
          invariant bestCell.Some? ==> (Before(bestCell.value.row, bestCell.value.col, row, 0) &&
            bestCell.value.col < n && board[bestCell.value.row, bestCell.value.col] == 0 &&
            minSize == |domains[bestCell.value.row, bestCell.value.col]|)
          invariant bestCell.Some? ==> (forall i, j :: 0 <= i < row && 0 <= j < n && board[i, j] == 0 ==>
            minSize <= |domains[i, j]|)
          invariant bestCell.Some? ==> (forall i, j ::
            0 <= i < row && 0 <= j < n && board[i, j] == 0 && Before(i, j, bestCell.value.row, bestCell.value.col) ==>
            minSize < |domains[i, j]|)
        {
          for col := 0 to n
            invariant bestCell.None? ==> forall i, j :: 0 <= i < n && 0 <= j < n && Before(i, j, row, col) ==> board[i, j] != 0
            invariant bestCell.Some? ==> (Before(bestCell.value.row, bestCell.value.col, row, col) &&
              bestCell.value.col < n && board[bestCell.value.row, bestCell.value.col] == 0 &&
              minSize == |domains[bestCell.value.row, bestCell.value.col]|)
            invariant bestCell.Some? ==> (forall i, j ::
              0 <= i < n && 0 <= j < n && Before(i, j, row, col) && board[i, j] == 0 ==>
              minSize <= |domains[i, j]|)
            invariant bestCell.Some? ==> (forall i, j ::
              0 <= i < n && 0 <= j < n && Before(i, j, row, col) && board[i, j] == 0 &&
              Before(i, j, bestCell.value.row, bestCell.value.col) ==>
              minSize < |domains[i, j]|)
          {
            if board[row, col] == 0 {
              var domainSize := |domains[row, col]|;
              if bestCell.None? || domainSize < minSize {
                minSize := domainSize;
                bestCell := Some(Cell(row, col));
              }
            }
          }
        }
        if bestCell.Some? {
          assert Contents(board)[bestCell.value.row][bestCell.value.col] == 0;
        }
        return bestCell;
      } else {
        for row := 0 to n
          invariant forall i, j :: 0 <= i < row && 0 <= j < n ==> board[i, j] != 0
        {
          for col := 0 to n
            invariant forall i, j :: 0 <= i < n && 0 <= j < n && Before(i, j, row, col) ==> board[i, j] != 0
          {
            if board[row, col] == 0 {
              assert Contents(board)[row][col] == 0;
              return Some(Cell(row, col));
            }
          }
        }
        return None;
      }
    }

    /** The values of one domain in the order the domain holds them: values
        enter a domain in ascending order and are only ever taken out, so
        that order is ascending. */
    method ListDomain(domain: set<int>) returns (values: seq<int>)
      requires forall v :: v in domain ==> 1 <= v <= n
      ensures multiset(values) == multiset(domain)
      ensures Increasing(values)
    {
      values := [];
      for num := 1 to n + 1
        invariant forall v :: multiset(values)[v] == if v in domain && v < num then 1 else 0
        invariant Increasing(values) && forall k :: 0 <= k < |values| ==> values[k] < num
      {
        if num in domain {
          values := values + [num];
        }
      }
      assert forall v :: multiset(values)[v] == multiset(domain)[v];
    }

    /** The LCV count of num for the cell (row, col): the row-and-column
        pass, then the box pass. */
    method CountConstraints(board: array2<int>, domains: array2<set<int>>, row: nat, col: nat, num: int)
      returns (count: nat)
      requires Valid() && Fits(board) && Fits(domains) && row < n && col < n
      ensures count == Score(Contents(board), Contents(domains), n, b, row, col, num)
    {
      var line := CountInLines(board, domains, row, col, num);
      var startRow := BoxStart(b, row);
      var startCol := BoxStart(b, col);
      BoxRange(n, b, row, row);
      BoxRange(n, b, col, col);
      var box := CountInBox(board, domains, startRow, startCol, num);
      count := line + box;
    }

    /** One step per x: (row, x) and (x, col) each count when empty and
        still open to num. */
    method CountInLines(board: array2<int>, domains: array2<set<int>>, row: nat, col: nat, num: int)
      returns (count: nat)
      requires Fits(board) && Fits(domains) && row < n && col < n
      ensures count == LineScore(Contents(board), Contents(domains), n, row, col, num, n)
    {
      ghost var g, d := Contents(board), Contents(domains);
      count := 0;
      for x := 0 to n
        invariant count == LineScore(g, d, n, row, col, num, x)
      {
        if board[row, x] == 0 && num in domains[row, x] {
          count := count + 1;
        }
        if board[x, col] == 0 && num in domains[x, col] {
          count := count + 1;
        }
      }
    }

    /** Every cell of the b-by-b box with corner (startRow, startCol) counts
        when empty and still open to num. */
    method CountInBox(board: array2<int>, domains: array2<set<int>>, startRow: nat, startCol: nat, num: int)
      returns (count: nat)
      requires Fits(board) && Fits(domains) && startRow + b <= n && startCol + b <= n
      ensures count == BoxScore(Contents(board), Contents(domains), n, b, startRow, startCol, num, b)
    {
      ghost var g, d := Contents(board), Contents(domains);
      count := 0;
      for i := 0 to b
        invariant count == BoxScore(g, d, n, b, startRow, startCol, num, i)
      {
        ghost var before := count;
        var r := startRow + i;
        for j := 0 to b
          invariant count == before + BoxRowScore(g, d, n, r, startCol, num, j)
        {
          if board[r, startCol + j] == 0 && num in domains[r, startCol + j] {
            count := count + 1;
          }
        }
      }
    }

    /** A stable sort by constraint count of values that arrive in ascending
        order: the result is ordered by count, and by value among equal
        counts. */
    method SortByConstraints(values: seq<int>, constraints: map<int, nat>) returns (sorted: seq<int>)
      requires Increasing(values) && forall i :: 0 <= i < |values| ==> values[i] in constraints
      ensures multiset(sorted) == multiset(values)
      ensures forall i, j :: 0 <= i < j < |sorted| ==>
        sorted[i] in constraints && sorted[j] in constraints && FewerConstraints(constraints, sorted[i], sorted[j])
    {
      sorted := [];
      for k := 0 to |values|
        invariant multiset(sorted) == multiset(values[..k])
        invariant forall q :: 0 <= q < |sorted| ==> sorted[q] in constraints
        invariant k < |values| ==> forall q :: 0 <= q < |sorted| ==> sorted[q] < values[k]
        invariant OrderedBy(constraints, sorted)
      {
        var v := values[k];
        var p := 0;
        while p < |sorted| && constraints[sorted[p]] <= constraints[v]
          invariant 0 <= p <= |sorted|
          invariant forall q :: 0 <= q < p ==> constraints[sorted[q]] <= constraints[v]
        {
          p := p + 1;
        }
        InsertStep(constraints, values, sorted, k, p);
        sorted := sorted[..p] + [v] + sorted[p..];
      }
      assert values[..|values|] == values;
    }

    /** The values to try at (row, col), in order: the domain as it stands
        without LCV, and sorted by LCV count with it. */
    method SortDomainByLCV(board: array2<int>, domains: array2<set<int>>, row: nat, col: nat)
      returns (candidates: seq<int>)
      requires Valid() && Fits(board) && Fits(domains) && row < n && col < n
      requires Within(Contents(domains), n)
      ensures multiset(candidates) == multiset(Contents(domains)[row][col])
      ensures !useLCV ==> Increasing(candidates)
      ensures useLCV ==> forall i, j :: 0 <= i < j < |candidates| ==>
        var si := Score(Contents(board), Contents(domains), n, b, row, col, candidates[i]);
        var sj := Score(Contents(board), Contents(domains), n, b, row, col, candidates[j]);
        si < sj || (si == sj && candidates[i] < candidates[j])
    {
      ghost var g, d := Contents(board), Contents(domains);
      assert d[row][col] == domains[row, col];
      var values := ListDomain(domains[row, col]);
      if !useLCV {
        return values;
      }
      var constraints: map<int, nat> := map[];
      for k := 0 to |values|
        invariant forall i :: 0 <= i < k ==> values[i] in constraints
        invariant forall v :: v in constraints ==> constraints[v] == Score(g, d, n, b, row, col, v)
      {
        var count := CountConstraints(board, domains, row, col, values[k]);
        constraints := constraints[values[k] := count];
      }
      candidates := SortByConstraints(values, constraints);
      forall v | v in candidates ensures v in constraints {
        assert v in multiset(candidates);
      }
    }

    /** Forward checking in place: clear the placed cell's domain and take
        num out of every domain in its row, its column and its box. */
    method UpdateDomains(domains: array2<set<int>>, row: nat, col: nat, num: int)
      requires Valid() && Fits(domains) && row < n && col < n
      modifies domains
      ensures Contents(domains) == Propagate(old(Contents(domains)), n, b, row, col, num)
    {
      domains[row, col] := {};
      for x := 0 to n
        invariant forall i, j :: 0 <= i < n && 0 <= j < n ==>
          domains[i, j] ==
            if i == row && j == col then {}
            else if (i == row && j < x) || (j == col && i < x) then old(domains[i, j]) - {num}
            else old(domains[i, j])
      {
        domains[row, x] := domains[row, x] - {num};
        domains[x, col] := domains[x, col] - {num};
      }
      var startRow := BoxStart(b, row);
      var startCol := BoxStart(b, col);
      BoxRange(n, b, row, row);
      BoxRange(n, b, col, col);
      for i := 0 to b
        invariant forall r, c :: 0 <= r < n && 0 <= c < n ==>
          domains[r, c] ==
            if r == row && c == col then {}
            else if r == row || c == col || (startRow <= r < startRow + i && startCol <= c < startCol + b) then old(domains[r, c]) - {num}
            else old(domains[r, c])
      {
        for j := 0 to b
          invariant forall r, c :: 0 <= r < n && 0 <= c < n ==>
            domains[r, c] ==
              if r == row && c == col then {}
              else if r == row || c == col || (startRow <= r < startRow + i && startCol <= c < startCol + b)
                || (r == startRow + i && startCol <= c < startCol + j) then old(domains[r, c]) - {num}
              else old(domains[r, c])
        {
          domains[startRow + i, startCol + j] := domains[startRow + i, startCol + j] - {num};
        }
      }
      ghost var d := old(Contents(domains));
      ghost var e := Propagate(d, n, b, row, col, num);
      forall r, c | 0 <= r < n && 0 <= c < n ensures domains[r, c] == e[r][c] {
        BoxRange(n, b, row, r);
        BoxRange(n, b, col, c);
      }
      ContentsAre(domains, e);
    }

    /** A copy of every domain, as a fresh array: the child search works on
        it and the caller's domains stay as they were. */
    method CopyDomains(domains: array2<set<int>>) returns (copy: array2<set<int>>)
      requires Fits(domains)
      ensures fresh(copy) && Fits(copy) && Contents(copy) == Contents(domains)
    {
      copy := new set<int>[n, n]((i, j) requires 0 <= i < n && 0 <= j < n reads domains => domains[i, j]);
      ContentsAre(copy, Contents(domains));
    }

    /** The recursive search. It writes only values that pass IsValid, so a
        conflict-free board stays conflict-free; on success the board is
        full and keeps its givens; on failure every placement has been
        undone, and when the domains were exact no solution exists. */
    method Backtrack(board: array2<int>, domains: array2<set<int>>, ghost g: Board, ghost d: DomainGrid)
      returns (solved: bool)
      requires Valid() && Fits(board) && Fits(domains)
      requires Contents(board) == g && Contents(domains) == d
      requires InRange(g, n) && Within(d, n)
      modifies this, board
      decreases EmptyCount(g), 2
      ensures openedStates >= old(openedStates)
      ensures solved ==> Filled(Contents(board), n) && Keeps(Contents(board), g, n)
      ensures solved ==> openedStates >= old(openedStates) + EmptyCount(g)
      ensures solved && NoConflicts(g, n, b) ==> NoConflicts(Contents(board), n, b)
      ensures !solved ==> Contents(board) == g
      ensures !solved && Exact(g, d, n, b) ==> forall S :: !SolutionOf(S, g, n, b)
      ensures NoEmpty(g, n) ==> solved
    {
      var cell := SelectCell(board, domains);
      if cell.None? {
        EmptyCountNone(g, n);
        return true;
      }
      var row, col := cell.value.row, cell.value.col;
      var candidates := SortDomainByLCV(board, domains, row, col);
      assert d[row][col] == domains[row, col] && g[row][col] == 0;
      CoversAtStart(g, d, n, b, row, col, candidates);
      solved := TryCandidates(board, domains, row, col, candidates, g, d);
    }

    /** The loop over the candidates of the chosen cell: each one that is
        still legal is tried in turn, and the first success ends the loop.
        g and d are the board and the domains on entry. */
    method TryCandidates(board: array2<int>, domains: array2<set<int>>, row: nat, col: nat, candidates: seq<int>,
                         ghost g: Board, ghost d: DomainGrid)
      returns (solved: bool)
      requires Valid() && Fits(board) && Fits(domains) && row < n && col < n
      requires Contents(board) == g && Contents(domains) == d
      requires InRange(g, n) && Within(d, n) && g[row][col] == 0
      requires multiset(candidates) == multiset(d[row][col])
      requires Exact(g, d, n, b) ==> Covers(g, n, b, row, col, candidates)
      modifies this, board
      decreases EmptyCount(g), 1
      ensures openedStates >= old(openedStates)
      ensures solved ==> Filled(Contents(board), n) && Keeps(Contents(board), g, n)
      ensures solved ==> openedStates >= old(openedStates) + EmptyCount(g)
      ensures solved && NoConflicts(g, n, b) ==> NoConflicts(Contents(board), n, b)
      ensures !solved ==> Contents(board) == g
      ensures !solved && Exact(g, d, n, b) ==> forall S :: !SolutionOf(S, g, n, b)
    {
      for k := 0 to |candidates|
        invariant Contents(board) == g
        invariant openedStates >= old(openedStates)
        invariant Exact(g, d, n, b) ==> Covers(g, n, b, row, col, candidates[k..])
      {
        var num := candidates[k];
        CandidateInRange(d, n, row, col, candidates, k);
        var ok := IsValid(board, row, col, num);
        if ok {
          solved := TryValue(board, domains, row, col, num, g, d);
          if solved {
            return true;
          }
        }
        CoversAfterFailure(g, d, n, b, row, col, candidates, k);
      }
      CoversNone(g, d, n, b, row, col, candidates);
      return false;
    }

    /** One branch of the search: place num at the empty cell (row, col),
        count the opened state, propagate into a copy of the domains and
        search on; if that fails, clear the cell again. */
    method TryValue(board: array2<int>, domains: array2<set<int>>, row: nat, col: nat, num: int,
                    ghost g: Board, ghost d: DomainGrid)
      returns (solved: bool)
      requires Valid() && Fits(board) && Fits(domains) && row < n && col < n
      requires Contents(board) == g && Contents(domains) == d
      requires InRange(g, n) && Within(d, n)
      requires g[row][col] == 0 && 1 <= num <= n && Legal(g, n, b, row, col, num)
      modifies this, board
      decreases EmptyCount(g), 0
      ensures openedStates >= old(openedStates) + 1
      ensures solved ==> Filled(Contents(board), n) && Keeps(Contents(board), g, n)
      ensures solved ==> openedStates >= old(openedStates) + EmptyCount(g)
      ensures solved && NoConflicts(g, n, b) ==> NoConflicts(Contents(board), n, b)
      ensures !solved ==> Contents(board) == g
      ensures !solved && Exact(g, d, n, b) ==> forall S :: !SolutionOf(S, Place(g, row, col, num), n, b)
    {
      ghost var h := Place(g, row, col, num);
      SetCell(board, row, col, num, g);
      openedStates := openedStates + 1;
      var newDomains := ChildDomains(domains, row, col, num, d);
      BranchStep(g, d, n, b, row, col, num);
      solved := Backtrack(board, newDomains, h, Propagate(d, n, b, row, col, num));
      if !solved {
        PlaceUndo(g, row, col, num);
        SetCell(board, row, col, 0, h);
      }
    }

    /** The domains handed to the child search: a fresh copy of d with num
        propagated from (row, col). */
    method ChildDomains(domains: array2<set<int>>, row: nat, col: nat, num: int, ghost d: DomainGrid)
      returns (newDomains: array2<set<int>>)
      requires Valid() && Fits(domains) && row < n && col < n && Contents(domains) == d
      ensures fresh(newDomains) && Fits(newDomains)
      ensures Contents(newDomains) == Propagate(d, n, b, row, col, num)
    {
      newDomains := CopyDomains(domains);
      UpdateDomains(newDomains, row, col, num);
    }

    /** board[row][col] = v, on a board that held g. */
    method SetCell(board: array2<int>, row: nat, col: nat, v: int, ghost g: Board)
      requires Fits(board) && row < n && col < n && Contents(board) == g
      modifies board
      ensures Contents(board) == Place(g, row, col, v)
    {
      board[row, col] := v;
      ContentsAre(board, Place(g, row, col, v));
    }
  }

  /** One solve: check the board's shape, build the domains, search. */
  method Solve(board: array2<int>, b: nat, useMRV: bool, useLCV: bool) returns (outcome: Outcome)
    requires 0 < b && board.Length0 == b * b && board.Length1 == b * b
    modifies board
    ensures outcome.Invalid? <==> !InRange(old(Contents(board)), b * b)
    ensures !outcome.Solved? ==> Contents(board) == old(Contents(board))
    ensures outcome.Solved? ==> Filled(Contents(board), b * b) && Keeps(Contents(board), old(Contents(board)), b * b)
    ensures outcome.Solved? ==> outcome.openedStates >= EmptyCount(old(Contents(board)))
    ensures outcome.Solved? && old(NoConflicts(Contents(board), b * b, b)) ==>
      SolutionOf(Contents(board), old(Contents(board)), b * b, b)
    ensures outcome.NoSolution? ==> forall S :: !SolutionOf(S, old(Contents(board)), b * b, b)
    ensures InRange(old(Contents(board)), b * b) && NoEmpty(old(Contents(board)), b * b) ==> outcome.Solved?
  {
    var solver := new Solver(b * b, b, useMRV, useLCV);
    var valid := solver.IsBoardValid(board);
    if !valid {
      return Invalid;
    }
    var domains := solver.InitializeDomains(board);
    ExactWithin(Contents(board), Contents(domains), b * b, b);
    var solved := solver.Backtrack(board, domains, Contents(board), Contents(domains));
    if solved {
      return Solved(solver.openedStates);
    }
    return NoSolution(solver.openedStates);
  }
}
