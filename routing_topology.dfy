/**
 * The link-state simulator's topology: a square matrix of link costs
 * between routers R1..Rn.  Entry [i][j] is the cost of the link from
 * router i+1 to router j+1; a working router has 0 on its own diagonal,
 * and -1 marks a missing link.  A router on fire has its whole row and
 * column set to -1, which cuts it off and marks it (a -1 on its diagonal).
 */
module RoutingTopology {

  /** A cost matrix as a value, row by row. */
  type Matrix = seq<seq<int>>

  predicate Square(g: Matrix)
  {
    forall i :: 0 <= i < |g| ==> |g[i]| == |g|
  }

  predicate Symmetric(g: Matrix)
    requires Square(g)
  {
    forall i, j :: 0 <= i < |g| && 0 <= j < |g| ==> g[i][j] == g[j][i]
  }

  /**
   * The five-router example network:
   *   R1-R2 2, R1-R3 3, R1-R4 1, R2-R3 7, R2-R4 3, R2-R5 5, R3-R5 6, R4-R5 4.
   */
  const Initial: Matrix :=
    [[0, 2, 3, 1, -1],
     [2, 0, 7, 3, 5],
     [3, 7, 0, -1, 6],
     [1, 3, -1, 0, 4],
     [-1, 5, 6, 4, 0]]

  /** The example network is square, symmetric, and no router starts on fire. */
  lemma InitialShape()
    ensures Square(Initial) && |Initial| == 5 && Symmetric(Initial)
    ensures forall i :: 0 <= i < 5 ==> Initial[i][i] == 0
  {
  }

  /**
   * The matrix after router `n` (numbered from 1) catches fire: its row and
   * its column are -1.  A number outside 1..size changes nothing.
   */
  function Burn(g: Matrix, n: int): (b: Matrix)
    requires Square(g)
    ensures Square(b) && |b| == |g|
  {
    if 1 <= n <= |g| then
      seq(|g|, i requires 0 <= i < |g| =>
        seq(|g|, j requires 0 <= j < |g| => if i == n - 1 || j == n - 1 then -1 else g[i][j]))
    else g
  }

  /** Router `n` has -1 all along its row and its column: no link left, and marked on its diagonal. */
  predicate Burnt(g: Matrix, n: int)
    requires Square(g)
  {
    1 <= n <= |g| && forall k :: 0 <= k < |g| ==> g[n - 1][k] == -1 && g[k][n - 1] == -1
  }

  /** Burning a router cuts it off and changes nothing else. */
  lemma BurnCutsRouter(g: Matrix, n: int)
    requires Square(g) && 1 <= n <= |g|
    ensures Burnt(Burn(g, n), n)
    ensures forall i, j :: 0 <= i < |g| && 0 <= j < |g| && i != n - 1 && j != n - 1 ==> Burn(g, n)[i][j] == g[i][j]
  {
  }

  /** Burning a router that is already cut off changes nothing. */
  lemma BurnBurnt(g: Matrix, n: int)
    requires Square(g) && Burnt(g, n)
    ensures Burn(g, n) == g
  {
    forall i | 0 <= i < |g|
      ensures Burn(g, n)[i] == g[i]
    {
      assert forall j :: 0 <= j < |g| ==> Burn(g, n)[i][j] == g[i][j];
    }
  }

  /** Burning the same router twice is the same as burning it once. */
  lemma BurnIdempotent(g: Matrix, n: int)
    requires Square(g)
    ensures Burn(Burn(g, n), n) == Burn(g, n)
  {
    var b := Burn(g, n);
    if 1 <= n <= |g| {
      assert forall i :: 0 <= i < |g| ==> Burn(b, n)[i] == b[i];
    }
  }

  /** Fires may be recorded in any order. */
  lemma BurnCommutes(g: Matrix, m: int, n: int)
    requires Square(g)
    ensures Burn(Burn(g, m), n) == Burn(Burn(g, n), m)
  {
    var l := Burn(Burn(g, m), n);
    var r := Burn(Burn(g, n), m);
    assert forall i :: 0 <= i < |g| ==> l[i] == r[i];
  }

  /** A fire keeps a symmetric network symmetric. */
  lemma BurnKeepsSymmetric(g: Matrix, n: int)
    requires Square(g) && Symmetric(g)
    ensures Symmetric(Burn(g, n))
  {
  }

  class RoutingTopology {
    var topology: array2<int>

    ghost predicate Valid()
      reads this
    {
      topology.Length0 == topology.Length1
    }

    /** The matrix the topology holds, as a value (`getTopology`). */
    function Grid(): (g: Matrix)
      requires Valid()
      reads this, topology
      ensures Square(g) && |g| == topology.Length0
      ensures forall i, j :: 0 <= i < |g| && 0 <= j < |g| ==> g[i][j] == topology[i, j]
    {
      var t := topology;
      seq(t.Length0, i requires 0 <= i < t.Length0 reads t =>
        seq(t.Length1, j requires 0 <= j < t.Length1 reads t => t[i, j]))
    }

    /** A topology holding the five-router example network. */
    constructor ()
      ensures Valid() && Grid() == Initial && fresh(topology)
    {
      topology := new int[5, 5]((i, j) requires 0 <= i < 5 && 0 <= j < 5 => Initial[i][j]);
      new;
      assert forall i :: 0 <= i < 5 ==> Grid()[i] == Initial[i];
    }

    /** The number of routers. */
    function MatrixSize(): (n: int)
      requires Valid()
      reads this, topology
      ensures n == |Grid()|
    {
      topology.Length0
    }

    /**
     * A new array with the link costs of router `index + 1`: a copy of its
     * row, or all zeros when there is no such router.
     */
    method GetLinksCostAt(index: int) returns (routerNeighbours: array<int>)
      requires Valid()
      ensures routerNeighbours.Length == |Grid()|
      ensures 0 <= index < |Grid()| ==> routerNeighbours[..] == Grid()[index]
      ensures !(0 <= index < |Grid()|) ==> forall c :: 0 <= c < routerNeighbours.Length ==> routerNeighbours[c] == 0
    {
      var len := topology.Length0;
      routerNeighbours := new int[len](_ => 0);
      for row := 0 to len
        invariant forall c :: 0 <= c < len ==>
          routerNeighbours[c] == if 0 <= index < row then topology[index, c] else 0
      {
        if index == row {
          for col := 0 to len
            invariant forall c :: 0 <= c < len ==>
              routerNeighbours[c] == if c < col then topology[index, c] else 0
          {
            routerNeighbours[col] := topology[index, col];
          }
        }
      }
      if 0 <= index < len {
        assert forall c :: 0 <= c < len ==> routerNeighbours[..][c] == Grid()[index][c];
      }
    }

    /** Sets row and column `routerNmbr - 1` to -1 in place: the router has caught fire. */
    method UpdateTopology(routerNmbr: int)
      requires Valid()
      modifies topology
      ensures Grid() == Burn(old(Grid()), routerNmbr)
    {
      ghost var g0 := Grid();
      var n := topology.Length0;
      for i := 0 to n
        invariant forall a, b :: 0 <= a < n && 0 <= b < n ==>
          topology[a, b] == if 1 <= routerNmbr <= i && (a == routerNmbr - 1 || b == routerNmbr - 1) then -1 else g0[a][b]
      {
        if i == routerNmbr - 1 {
          for j := 0 to topology.Length1
            invariant forall a, b :: 0 <= a < n && 0 <= b < n ==>
              topology[a, b] == if (a == i && b < j) || (b == i && a < j) then -1 else g0[a][b]
          {
            topology[i, j] := -1;
            topology[j, routerNmbr - 1] := -1;
          }
        }
      }
      assert forall a :: 0 <= a < n ==> Grid()[a] == Burn(g0, routerNmbr)[a];
    }

    /** Replaces the matrix by `t`, which the topology then shares. */
    method SetTopology(t: array2<int>)
      requires t.Length0 == t.Length1
      modifies this
      ensures Valid() && topology == t
    {
      topology := t;
    }
  }
}
