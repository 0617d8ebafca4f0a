/** Domains: for every cell, the set of values still open to it. Forward
    checking keeps them exact, and this module proves that it does. */
module Domains {
  import opened Grid

  type DomainGrid = seq<seq<set<int>>>

  /** The values 1..n that could be placed at (row, col) right now. */
  ghost function Candidates(g: Board, n: nat, b: nat, row: nat, col: nat): set<int>
    requires IsDim(n, b) && Shaped(g, n) && row < n && col < n
  {
    set v | 1 <= v <= n && Legal(g, n, b, row, col, v)
  }

  /** The domain a cell gets from scratch: its legal values when empty,
      nothing when filled. */
  ghost function InitialDomain(g: Board, n: nat, b: nat, i: nat, j: nat): set<int>
    requires IsDim(n, b) && Shaped(g, n) && i < n && j < n
  {
    if g[i][j] == 0 then Candidates(g, n, b, i, j) else {}
  }

  /** Each empty cell's domain is exactly its set of legal values, and each
      filled cell's domain is empty. */
  ghost predicate Exact(g: Board, d: DomainGrid, n: nat, b: nat)
    requires IsDim(n, b) && Shaped(g, n) && Shaped(d, n)
  {
    forall i, j :: 0 <= i < n && 0 <= j < n ==> d[i][j] == InitialDomain(g, n, b, i, j)
  }

  /** Every value in every domain is one of 1..n. */
  ghost predicate Within(d: DomainGrid, n: nat)
    requires Shaped(d, n)
  {
    forall i, j, v :: 0 <= i < n && 0 <= j < n && v in d[i][j] ==> 1 <= v <= n
  }

  /** Exact domains only hold values 1..n. */
  lemma ExactWithin(g: Board, d: DomainGrid, n: nat, b: nat)
    requires IsDim(n, b) && Shaped(g, n) && Shaped(d, n) && Exact(g, d, n, b)
    ensures Within(d, n)
  {
    forall i, j, v | 0 <= i < n && 0 <= j < n && v in d[i][j] ensures 1 <= v <= n {
      assert d[i][j] == InitialDomain(g, n, b, i, j);
    }
  }

  /** Forward checking after num is placed at (row, col): that cell's domain
      is emptied, and num leaves the domain of every cell sharing its row, its
      column or its box. */
  ghost function Propagate(d: DomainGrid, n: nat, b: nat, row: nat, col: nat, num: int): (e: DomainGrid)
    requires IsDim(n, b) && Shaped(d, n) && row < n && col < n
    ensures Shaped(e, n)
  {
    seq(n, i requires 0 <= i < n =>
      seq(n, j requires 0 <= j < n =>
        if i == row && j == col then {}
        else if Peer(b, i, j, row, col) then d[i][j] - {num}
        else d[i][j]))
  }

  /** Propagation only ever removes: it keeps domains inside 1..n, and a value
      other than num is lost only at the placed cell itself. */
  lemma PropagateOnlyRemoves(d: DomainGrid, n: nat, b: nat, row: nat, col: nat, num: int)
    requires IsDim(n, b) && Shaped(d, n) && row < n && col < n && Within(d, n)
    ensures Within(Propagate(d, n, b, row, col, num), n)
    ensures forall i, j :: 0 <= i < n && 0 <= j < n ==>
      Propagate(d, n, b, row, col, num)[i][j] <= d[i][j]
    ensures forall i, j, v ::
      0 <= i < n && 0 <= j < n && (i != row || j != col) && v != num && v in d[i][j]
      ==> v in Propagate(d, n, b, row, col, num)[i][j]
  {
  }

  lemma NotInRowAfterPlace(g: Board, n: nat, row: nat, col: nat, num: int, i: nat, v: int)
    requires Shaped(g, n) && row < n && col < n && i < n && g[row][col] == 0 && v != 0
    ensures NotInRow(Place(g, row, col, num), n, i, v) <==> NotInRow(g, n, i, v) && !(v == num && i == row)
  {
    var h := Place(g, row, col, num);
    if i != row {
      assert h[i] == g[i];
    } else if v == num {
      assert h[i][col] == v;
    } else {
      assert forall x :: 0 <= x < n ==> (h[i][x] == v <==> g[i][x] == v);
    }
  }

  lemma NotInColAfterPlace(g: Board, n: nat, row: nat, col: nat, num: int, j: nat, v: int)
    requires Shaped(g, n) && row < n && col < n && j < n && g[row][col] == 0 && v != 0
    ensures NotInCol(Place(g, row, col, num), n, j, v) <==> NotInCol(g, n, j, v) && !(v == num && j == col)
  {
    var h := Place(g, row, col, num);
    if j == col && v == num {
      assert h[row][j] == v;
    } else {
      assert forall x :: 0 <= x < n ==> (h[x][j] == v <==> g[x][j] == v);
    }
  }

  lemma NotInBoxAfterPlace(g: Board, n: nat, b: nat, row: nat, col: nat, num: int, i: nat, j: nat, v: int)
    requires IsDim(n, b) && Shaped(g, n) && row < n && col < n && i < n && j < n
    requires g[row][col] == 0 && v != 0
    ensures NotInBox(Place(g, row, col, num), n, b, i, j, v) <==>
      NotInBox(g, n, b, i, j, v) && !(v == num && SameBox(b, i, j, row, col))
  {
    var h := Place(g, row, col, num);
    if v == num && SameBox(b, i, j, row, col) {
      assert SameBox(b, row, col, i, j) && h[row][col] == v;
    }
  }

  /** After num is placed at the empty cell (row, col), a nonzero value is
      legal at (i, j) exactly when it was legal before and it is not num
      placed at a peer. */
  lemma LegalAfterPlace(g: Board, n: nat, b: nat, row: nat, col: nat, num: int, i: nat, j: nat, v: int)
    requires IsDim(n, b) && Shaped(g, n) && row < n && col < n && i < n && j < n
    requires g[row][col] == 0 && v != 0
    ensures Legal(Place(g, row, col, num), n, b, i, j, v) <==>
      Legal(g, n, b, i, j, v) && !(v == num && Peer(b, i, j, row, col))
  {
    NotInRowAfterPlace(g, n, row, col, num, i, v);
    NotInColAfterPlace(g, n, row, col, num, j, v);
    NotInBoxAfterPlace(g, n, b, row, col, num, i, j, v);
  }

  /** Forward checking is exact: placing a legal value in an empty cell and
      propagating it turns exact domains into exact domains for the new
      board. */
  lemma PropagateKeepsExact(g: Board, d: DomainGrid, n: nat, b: nat, row: nat, col: nat, num: int)
    requires IsDim(n, b) && Shaped(g, n) && Shaped(d, n) && row < n && col < n
    requires g[row][col] == 0 && 1 <= num <= n
    ensures Exact(g, d, n, b) ==> Exact(Place(g, row, col, num), Propagate(d, n, b, row, col, num), n, b)
  {
    var h := Place(g, row, col, num);
    var e := Propagate(d, n, b, row, col, num);
    forall i, j | 0 <= i < n && 0 <= j < n && Exact(g, d, n, b)
      ensures e[i][j] == InitialDomain(h, n, b, i, j)
    {
      if (i != row || j != col) && g[i][j] == 0 {
        forall v ensures v in Candidates(h, n, b, i, j) <==> v in e[i][j] {
          if 1 <= v <= n {
            LegalAfterPlace(g, n, b, row, col, num, i, j, v);
          }
        }
      }
    }
  }
}
