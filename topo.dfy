/**
 * The 16-node adjacency matrix of the mesh and the route search over it
 * (sky/topo.cpp).  Entries are signed bytes: a positive entry is the cost of
 * a link, 0 means no link and -1 on the diagonal marks a node on fire.  Node
 * numbers handed in and out are 1-based; the matrix is indexed 0-based.
 *
 * The search is modelled as written.  Its selection step does not pick a
 * node of least distance (it compares against the distance of the node whose
 * number equals the scan position), so what is proved is what the code does
 * guarantee: every distance is the cost of a chain of links recorded in
 * `prev`, and the reached set is closed under links whose use keeps the
 * distance below 255.  The local arrays of the search are sequence values.
 */
module Topo {

  const NodeSize: nat := 16
  const MaxPath: nat := 16
  /** The distance of a node not (yet) reached. */
  const Unreached: int := 255
  /**
   * `memset`/`memcpy` of `max_path` bytes move only the first four 32-bit
   * entries of the 16-entry output.
   */
  const CopiedEntries: nat := 4

  type Int8 = x: int | -128 <= x < 128

  /** A 16 x 16 matrix of link costs, row = from, column = to. */
  predicate IsMatrix(m: seq<seq<int>>)
  {
    |m| == NodeSize && forall i :: 0 <= i < NodeSize ==> |m[i]| == NodeSize
  }

  predicate Symmetric(m: seq<seq<int>>)
    requires IsMatrix(m)
  {
    forall i, j :: 0 <= i < NodeSize && 0 <= j < NodeSize ==> m[i][j] == m[j][i]
  }

  /** The contents of `topo::matrix`. */
  function Rows(t: array2<Int8>): (m: seq<seq<int>>)
    requires t.Length0 == NodeSize && t.Length1 == NodeSize
    reads t
    ensures IsMatrix(m)
    ensures forall i, j :: 0 <= i < NodeSize && 0 <= j < NodeSize ==> m[i][j] == t[i, j] as int
  {
    seq(NodeSize, i requires 0 <= i < NodeSize reads t =>
      seq(NodeSize, j requires 0 <= j < NodeSize reads t => t[i, j] as int))
  }

  /**
   * `topo_set_node_link_cost`: the link is written in both directions and
   * the updated topology is returned by value.
   */
  method SetNodeLinkCost(topology: array2<Int8>, node: nat, endNode: nat, cost: Int8) returns (copy: seq<seq<int>>)
    requires topology.Length0 == NodeSize && topology.Length1 == NodeSize
    requires node < NodeSize && endNode < NodeSize
    modifies topology
    ensures forall i, j :: 0 <= i < NodeSize && 0 <= j < NodeSize ==>
      topology[i, j] == if (i == node && j == endNode) || (i == endNode && j == node) then cost else old(topology[i, j])
    ensures copy == Rows(topology)
    ensures old(Symmetric(Rows(topology))) ==> Symmetric(copy)
  {
    topology[node, endNode] := cost;
    topology[endNode, node] := cost;
    copy := Rows(topology);
  }

  // ---------------------------------------------------------------------
  // The state of the search
  // ---------------------------------------------------------------------

  /** `min_distance` and `prev_node`: 16 entries each, distances within 0..255. */
  predicate Bounded(dist: seq<int>, prev: seq<int>)
  {
    |dist| == NodeSize && |prev| == NodeSize &&
    (forall i :: 0 <= i < NodeSize ==> 0 <= dist[i] <= Unreached) &&
    (forall i :: 0 <= i < NodeSize ==> 0 <= prev[i] < NodeSize)
  }

  /**
   * The start has distance 0 and is its own predecessor; every other reached
   * node records the link it was reached by, and its distance is the
   * predecessor's plus that link's cost; unreached nodes keep predecessor 0.
   */
  predicate Forest(m: seq<seq<int>>, start: nat, dist: seq<int>, prev: seq<int>)
    requires IsMatrix(m) && Bounded(dist, prev) && start < NodeSize
  {
    dist[start] == 0 && prev[start] == start &&
    (forall i {:trigger prev[i]} :: (0 <= i < NodeSize && i != start && dist[i] < Unreached) ==>
      m[prev[i]][i] > 0 && dist[i] == dist[prev[i]] + m[prev[i]][i]) &&
    (forall i {:trigger prev[i]} :: 0 <= i < NodeSize && i != start && dist[i] == Unreached ==> prev[i] == 0)
  }

  /** A link out of a reached node reaches its target whenever the sum stays below 255. */
  predicate Closed(m: seq<seq<int>>, dist: seq<int>)
    requires IsMatrix(m) && |dist| == NodeSize
  {
    forall u, v :: (0 <= u < NodeSize && 0 <= v < NodeSize && dist[u] < Unreached && m[u][v] > 0 && dist[u] + m[u][v] < Unreached) ==>
      dist[v] < Unreached
  }

  /** The shape of the distances and predecessors the main loop of `topo_compute_dijkstra` leaves behind. */
  predicate Explored(m: seq<seq<int>>, start: nat, dist: seq<int>, prev: seq<int>)
  {
    IsMatrix(m) && start < NodeSize && Bounded(dist, prev) && Forest(m, start, dist, prev) &&
    Descends(dist, prev)
  }

  /** `unvisited_nodes[0 .. size)` holds distinct 1-based node numbers. */
  predicate Listed(unvisited: seq<int>, size: nat)
  {
    |unvisited| == NodeSize && size <= NodeSize &&
    (forall i :: 0 <= i < size ==> 1 <= unvisited[i] <= NodeSize) &&
    (forall i, j :: 0 <= i < j < size ==> unvisited[i] != unvisited[j])
  }

  /** Node `n` (0-based) is still in the unvisited list. */
  predicate Pending(unvisited: seq<int>, size: nat, n: int)
    requires size <= |unvisited|
  {
    n + 1 in unvisited[..size]
  }

  /** The invariant of the main loop. */
  predicate SearchInv(m: seq<seq<int>>, start: nat, dist: seq<int>, prev: seq<int>, unvisited: seq<int>, size: nat)
  {
    IsMatrix(m) && start < NodeSize && Listed(unvisited, size) && Bounded(dist, prev) &&
    dist[start] == 0 && prev[start] == start &&
    (forall i {:trigger prev[i]} :: (0 <= i < NodeSize && i != start && dist[i] < Unreached) ==>
      !Pending(unvisited, size, prev[i]) && m[prev[i]][i] > 0 && dist[i] == dist[prev[i]] + m[prev[i]][i]) &&
    (forall i {:trigger prev[i]} :: 0 <= i < NodeSize && i != start && dist[i] == Unreached ==> prev[i] == 0) &&
    (forall u :: 0 <= u < NodeSize && !Pending(unvisited, size, u) ==> dist[u] < Unreached) &&
    (forall u, v :: (0 <= u < NodeSize && 0 <= v < NodeSize && !Pending(unvisited, size, u) && Pending(unvisited, size, v) && m[u][v] > 0) ==>
      dist[v] <= dist[u] + m[u][v])
  }

  /** When no pending node is reached any more, the search has explored everything it will. */
  lemma SearchDone(m: seq<seq<int>>, start: nat, dist: seq<int>, prev: seq<int>, unvisited: seq<int>, size: nat)
    requires SearchInv(m, start, dist, prev, unvisited, size)
    requires forall n :: 0 <= n < NodeSize && Pending(unvisited, size, n) ==> dist[n] >= Unreached
    ensures Explored(m, start, dist, prev) && Closed(m, dist)
  {
    forall u, v | 0 <= u < NodeSize && 0 <= v < NodeSize && dist[u] < Unreached && m[u][v] > 0 && dist[u] + m[u][v] < Unreached
      ensures dist[v] < Unreached
    {
      assert !Pending(unvisited, size, u);
    }
    ForestDescends(m, start, dist, prev);
  }

  // ---------------------------------------------------------------------
  // The steps of the main loop
  // ---------------------------------------------------------------------

  /**
   * The node the selection loop picks, scanning positions 0 .. size-1: a
   * pending node is taken when its distance is below `min`, and `min` then
   * becomes `min_distance[i]`, the distance of the node numbered by the scan
   * position rather than of the node taken.
   */
  function Selection(dist: seq<int>, unvisited: seq<int>, size: nat): (int, int)
    requires |dist| == NodeSize && Listed(unvisited, size)
    decreases size
  {
    if size == 0 then (Unreached, -1)
    else
      var (min, node) := Selection(dist, unvisited, size - 1);
      var i := size - 1;
      if dist[unvisited[i] - 1] < min then (dist[i], unvisited[i] - 1) else (min, node)
  }

  /** The running minimum never exceeds 255, and stays 255 while nothing is taken. */
  lemma {:induction false} SelectionBound(dist: seq<int>, unvisited: seq<int>, size: nat)
    requires |dist| == NodeSize && Listed(unvisited, size)
    requires forall i :: 0 <= i < NodeSize ==> dist[i] <= Unreached
    ensures Selection(dist, unvisited, size).0 <= Unreached
    ensures Selection(dist, unvisited, size).1 == -1 ==> Selection(dist, unvisited, size).0 == Unreached
    decreases size
  {
    if size > 0 {
      SelectionBound(dist, unvisited, size - 1);
    }
  }

  /** The selection finds nothing exactly when no listed node is reached. */
  lemma {:induction false} SelectionNone(dist: seq<int>, unvisited: seq<int>, size: nat)
    requires |dist| == NodeSize && Listed(unvisited, size)
    requires forall i :: 0 <= i < NodeSize ==> dist[i] <= Unreached
    ensures Selection(dist, unvisited, size).1 == -1 <==>
      forall i :: 0 <= i < size ==> dist[unvisited[i] - 1] >= Unreached
    decreases size
  {
    if size > 0 {
      SelectionNone(dist, unvisited, size - 1);
      SelectionBound(dist, unvisited, size - 1);
    }
  }

  /** A node the selection finds is listed and reached. */
  lemma {:induction false} SelectionTaken(dist: seq<int>, unvisited: seq<int>, size: nat)
    requires |dist| == NodeSize && Listed(unvisited, size)
    requires forall i :: 0 <= i < NodeSize ==> dist[i] <= Unreached
    ensures Selection(dist, unvisited, size).1 != -1 ==>
      0 <= Selection(dist, unvisited, size).1 < NodeSize &&
      Pending(unvisited, size, Selection(dist, unvisited, size).1) &&
      dist[Selection(dist, unvisited, size).1] < Unreached
    decreases size
  {
    if size > 0 {
      SelectionTaken(dist, unvisited, size - 1);
      SelectionBound(dist, unvisited, size - 1);
      var (min, node) := Selection(dist, unvisited, size - 1);
      var i := size - 1;
      if dist[unvisited[i] - 1] < min {
        assert unvisited[..size][i] == unvisited[i];
      } else if node != -1 {
        var j :| 0 <= j < i && unvisited[..i][j] == node + 1;
        assert unvisited[..size][j] == node + 1;
      }
    }
  }

  /**
   * The selection is not a minimum: with node 1 (distance 50) and node 2
   * (distance 20) pending and node 0 at distance 10, node 1 is taken.
   */
  lemma SelectionNotMinimal()
    ensures var dist := [10, 50, 20, 255, 255, 255, 255, 255, 255, 255, 255, 255, 255, 255, 255, 255];
      var unvisited := [2, 3, 0, 0, 0, 0, 0, 0, 0, 0, 0, 0, 0, 0, 0, 0];
      Listed(unvisited, 2) && Selection(dist, unvisited, 2).1 == 1 && dist[2] < dist[1]
  {
  }

  /** The selection loop of the main loop (the "Get next node" scan). */
  method SelectNext(dist: seq<int>, unvisited: seq<int>, size: nat) returns (newNode: int)
    requires |dist| == NodeSize && Listed(unvisited, size)
    requires forall i :: 0 <= i < NodeSize ==> dist[i] <= Unreached
    ensures newNode == Selection(dist, unvisited, size).1
    ensures newNode == -1 <==> forall n :: 0 <= n < NodeSize && Pending(unvisited, size, n) ==> dist[n] >= Unreached
    ensures newNode != -1 ==> 0 <= newNode < NodeSize && Pending(unvisited, size, newNode) && dist[newNode] < Unreached
  {
    var min := Unreached;
    newNode := -1;
    for i := 0 to size
      invariant (min, newNode) == Selection(dist, unvisited, i)
    {
      if dist[unvisited[i] - 1] < min {
        newNode := unvisited[i] - 1;
        min := dist[i];
      }
    }
    SelectionNone(dist, unvisited, size);
    SelectionTaken(dist, unvisited, size);
    if newNode == -1 {
      forall n | 0 <= n < NodeSize && Pending(unvisited, size, n)
        ensures dist[n] >= Unreached
      {
        var k :| 0 <= k < size && unvisited[k] == n + 1;
      }
    } else {
      assert dist[newNode] < Unreached;
    }
  }

  /** `unvisited_nodes[i]` with the read one past the end (index 16) taken as 0. */
  function EntryAt(unvisited: seq<int>, i: nat): int
  {
    if i < |unvisited| then unvisited[i] else 0
  }

  /** Dropping the entry at position `p` from a list leaves the other entries listed. */
  lemma ClosedUp(unvisited: seq<int>, size: nat, p: nat, u: seq<int>)
    requires Listed(unvisited, size) && p < size && |u| == NodeSize
    requires forall k :: 0 <= k < p ==> u[k] == unvisited[k]
    requires forall k :: p <= k < size - 1 ==> u[k] == unvisited[k + 1]
    ensures Listed(u, size - 1)
    ensures forall n :: Pending(u, size - 1, n) <==> Pending(unvisited, size, n) && n + 1 != unvisited[p]
  {
    assert u[..size - 1] == unvisited[..p] + unvisited[p + 1..size];
    assert unvisited[..size] == unvisited[..p] + [unvisited[p]] + unvisited[p + 1..size];
    forall i, j | 0 <= i < j < size - 1
      ensures u[i] != u[j]
    {
      var i' := if i < p then i else i + 1;
      var j' := if j < p then j else j + 1;
      assert u[i] == unvisited[i'] && u[j] == unvisited[j'];
    }
    forall n
      ensures Pending(u, size - 1, n) <==> Pending(unvisited, size, n) && n + 1 != unvisited[p]
    {
      if n + 1 in unvisited[..p] {
        var k :| 0 <= k < p && unvisited[k] == n + 1;
      }
      if n + 1 in unvisited[p + 1..size] {
        var k :| p + 1 <= k < size && unvisited[k] == n + 1;
      }
    }
  }

  /**
   * The removal loop: from the position of `current + 1` onwards every entry
   * takes its successor's value, so the list closes up in order.
   */
  method RemoveNode(unvisited: seq<int>, size: nat, current: int) returns (u: seq<int>)
    requires Listed(unvisited, size) && 0 < size && Pending(unvisited, size, current)
    ensures Listed(u, size - 1)
    ensures forall n :: Pending(u, size - 1, n) <==> Pending(unvisited, size, n) && n != current
  {
    ghost var p :| 0 <= p < size && unvisited[p] == current + 1;
    u := unvisited;
    var isRemoved := false;
    for i := 0 to size
      invariant |u| == NodeSize
      invariant isRemoved <==> p < i
      invariant forall k :: 0 <= k < i && k < p ==> u[k] == unvisited[k]
      invariant forall k :: p <= k < i ==> u[k] == EntryAt(unvisited, k + 1)
      invariant forall k :: i <= k < NodeSize ==> u[k] == unvisited[k]
    {
      if i != size && u[i] == current + 1 {
        assert i == p;
        u := u[i := 0];
        isRemoved := true;
        u := u[i := EntryAt(u, i + 1)];
      } else if i != size && isRemoved {
        u := u[i := EntryAt(u, i + 1)];
      }
    }
    ClosedUp(unvisited, size, p, u);
  }

  /** Whether node `i` is listed, decided by the inner scan of the relaxation loop. */
  method Contains(unvisited: seq<int>, size: nat, i: int) returns (containsNode: bool)
    requires Listed(unvisited, size)
    ensures containsNode <==> Pending(unvisited, size, i)
  {
    containsNode := false;
    for j := 0 to size
      invariant containsNode <==> i + 1 in unvisited[..j]
    {
      assert unvisited[..j + 1] == unvisited[..j] + [unvisited[j]];
      if unvisited[j] == i + 1 {
        containsNode := true;
        break;
      }
    }
  }

  /**
   * The relaxation loop: every node still listed that `current` links to
   * with a positive cost takes the distance through `current` when that is
   * strictly smaller, and `current` becomes its predecessor.
   */
  method Relax(topology: array2<Int8>, dist: seq<int>, prev: seq<int>, unvisited: seq<int>, size: nat, current: nat)
    returns (dist': seq<int>, prev': seq<int>)
    requires topology.Length0 == NodeSize && topology.Length1 == NodeSize
    requires Bounded(dist, prev) && Listed(unvisited, size) && current < NodeSize
    requires !Pending(unvisited, size, current)
    ensures |dist'| == NodeSize && |prev'| == NodeSize
    ensures forall i :: 0 <= i < NodeSize ==>
      if Pending(unvisited, size, i) && Rows(topology)[current][i] > 0 && dist[current] + Rows(topology)[current][i] < dist[i]
      then dist'[i] == dist[current] + Rows(topology)[current][i] && prev'[i] == current
      else dist'[i] == dist[i] && prev'[i] == prev[i]
  {
    dist', prev' := dist, prev;
    for i := 0 to NodeSize
      invariant |dist'| == NodeSize && |prev'| == NodeSize
      invariant forall k :: 0 <= k < i ==>
        if Pending(unvisited, size, k) && topology[current, k] > 0 && dist[current] + topology[current, k] as int < dist[k]
        then dist'[k] == dist[current] + topology[current, k] as int && prev'[k] == current
        else dist'[k] == dist[k] && prev'[k] == prev[k]
      invariant forall k :: i <= k < NodeSize ==> dist'[k] == dist[k] && prev'[k] == prev[k]
    {
      var containsNode := Contains(unvisited, size, i);
      if containsNode && topology[current, i] > 0 {
        var newDistance := dist'[current] + topology[current, i] as int;
        if newDistance < dist'[i] {
          dist' := dist'[i := newDistance];
          prev' := prev'[i := current];
        }
      }
    }
  }

  /**
   * One pass of the main loop: `current` is a pending node with a finite
   * distance, `u` lists the pending nodes except `current`, and the
   * distances and predecessors are relaxed through the links out of
   * `current` to the nodes still pending.
   */
  ghost predicate Stepped(m: seq<seq<int>>, start: nat, dist: seq<int>, prev: seq<int>, unvisited: seq<int>, size: nat,
                    current: nat, u: seq<int>, dist': seq<int>, prev': seq<int>)
  {
    SearchInv(m, start, dist, prev, unvisited, size) && 0 < size &&
    current < NodeSize && Pending(unvisited, size, current) && dist[current] < Unreached &&
    Listed(u, size - 1) &&
    (forall n :: Pending(u, size - 1, n) <==> Pending(unvisited, size, n) && n != current) &&
    |dist'| == NodeSize && |prev'| == NodeSize &&
    forall i :: 0 <= i < NodeSize ==>
      if Pending(u, size - 1, i) && m[current][i] > 0 && dist[current] + m[current][i] < dist[i]
      then dist'[i] == dist[current] + m[current][i] && prev'[i] == current
      else dist'[i] == dist[i] && prev'[i] == prev[i]
  }

  /** A pass keeps the predecessor links pointing at visited nodes along real links. */
  lemma StepTree(m: seq<seq<int>>, start: nat, dist: seq<int>, prev: seq<int>, unvisited: seq<int>, size: nat,
                 current: nat, u: seq<int>, dist': seq<int>, prev': seq<int>)
    requires Stepped(m, start, dist, prev, unvisited, size, current, u, dist', prev')
    ensures Bounded(dist', prev') && dist'[start] == 0 && prev'[start] == start
    ensures forall i {:trigger prev'[i]} :: (0 <= i < NodeSize && i != start && dist'[i] < Unreached) ==>
      !Pending(u, size - 1, prev'[i]) && m[prev'[i]][i] > 0 && dist'[i] == dist'[prev'[i]] + m[prev'[i]][i]
    ensures forall i {:trigger prev'[i]} :: 0 <= i < NodeSize && i != start && dist'[i] == Unreached ==> prev'[i] == 0
  {
    assert Bounded(dist', prev');
    assert start != current ==> dist'[start] == dist[start] by {
      if Pending(u, size - 1, start) {
        assert dist[start] == 0;
      }
    }
    forall i | 0 <= i < NodeSize && i != start && dist'[i] < Unreached
      ensures !Pending(u, size - 1, prev'[i]) && m[prev'[i]][i] > 0 && dist'[i] == dist'[prev'[i]] + m[prev'[i]][i]
    {
      if dist'[i] != dist[i] || prev'[i] != prev[i] {
        assert prev'[i] == current && dist'[current] == dist[current];
      } else {
        assert !Pending(unvisited, size, prev[i]);
        assert dist'[prev[i]] == dist[prev[i]];
      }
    }
  }

  /** A pass keeps every visited node reached and every link out of a visited node relaxed. */
  lemma StepFrontier(m: seq<seq<int>>, start: nat, dist: seq<int>, prev: seq<int>, unvisited: seq<int>, size: nat,
                     current: nat, u: seq<int>, dist': seq<int>, prev': seq<int>)
    requires Stepped(m, start, dist, prev, unvisited, size, current, u, dist', prev')
    ensures forall v :: 0 <= v < NodeSize && !Pending(u, size - 1, v) ==> dist'[v] < Unreached
    ensures forall a, b :: (0 <= a < NodeSize && 0 <= b < NodeSize && !Pending(u, size - 1, a) && Pending(u, size - 1, b) && m[a][b] > 0) ==>
      dist'[b] <= dist'[a] + m[a][b]
  {
    forall a, b | 0 <= a < NodeSize && 0 <= b < NodeSize && !Pending(u, size - 1, a) && Pending(u, size - 1, b) && m[a][b] > 0
      ensures dist'[b] <= dist'[a] + m[a][b]
    {
      if a != current {
        assert !Pending(unvisited, size, a) && dist'[a] == dist[a];
      }
    }
  }

  /** One pass of the main loop keeps its invariant. */
  lemma SearchStep(m: seq<seq<int>>, start: nat, dist: seq<int>, prev: seq<int>, unvisited: seq<int>, size: nat,
                   current: nat, u: seq<int>, dist': seq<int>, prev': seq<int>)
    requires Stepped(m, start, dist, prev, unvisited, size, current, u, dist', prev')
    ensures SearchInv(m, start, dist', prev', u, size - 1)
  {
    StepTree(m, start, dist, prev, unvisited, size, current, u, dist', prev');
    StepFrontier(m, start, dist, prev, unvisited, size, current, u, dist', prev');
  }

  /** The state the initialisation loops leave: every node listed, only the start at distance 0. */
  method Initialise(src: int) returns (prevNode: seq<int>, minDistance: seq<int>, unvisited: seq<int>, isEmpty: bool, size: nat)
    requires 1 <= src <= NodeSize
    ensures !isEmpty && size == NodeSize
    ensures |prevNode| == NodeSize && |minDistance| == NodeSize && |unvisited| == NodeSize
    ensures forall k :: 0 <= k < NodeSize ==>
      unvisited[k] == k + 1 && minDistance[k] == (if k == src - 1 then 0 else Unreached) &&
      prevNode[k] == (if k == src - 1 then src - 1 else 0)
  {
    prevNode := seq(NodeSize, _ => 0);
    minDistance := seq(NodeSize, _ => 0);
    unvisited := seq(NodeSize, _ => 0);
    for i := 1 to NodeSize + 1
      invariant |unvisited| == NodeSize && |minDistance| == NodeSize
      invariant forall k :: 0 <= k < i - 1 ==> unvisited[k] == k + 1 && minDistance[k] == if k == src - 1 then 0 else Unreached
      invariant forall k :: i - 1 <= k < NodeSize ==> unvisited[k] == 0 && minDistance[k] == 0
    {
      unvisited := unvisited[i - 1 := i];
      if i != src {
        minDistance := minDistance[i - 1 := Unreached];
      }
    }
    prevNode := prevNode[src - 1 := src - 1];

    isEmpty := true;
    size := 0;
    for i := 0 to NodeSize
      invariant size == i && (isEmpty <==> i == 0)
    {
      if unvisited[i] != 0 {
        isEmpty := false;
        size := size + 1;
      }
    }
  }

  lemma InitialInv(m: seq<seq<int>>, start: nat, dist: seq<int>, prev: seq<int>, unvisited: seq<int>)
    requires IsMatrix(m) && start < NodeSize
    requires |prev| == NodeSize && |dist| == NodeSize && |unvisited| == NodeSize
    requires forall k :: 0 <= k < NodeSize ==>
      unvisited[k] == k + 1 && dist[k] == (if k == start then 0 else Unreached) &&
      prev[k] == (if k == start then start else 0)
    ensures SearchInv(m, start, dist, prev, unvisited, NodeSize)
  {
    forall n | 0 <= n < NodeSize
      ensures Pending(unvisited, NodeSize, n)
    {
      assert unvisited[n] == n + 1;
    }
  }

  /** One pass of the main loop after a node has been selected: remove it, then relax its links. */
  method Visit(topology: array2<Int8>, start: nat, dist: seq<int>, prev: seq<int>, unvisited: seq<int>, size: nat, current: int)
    returns (dist': seq<int>, prev': seq<int>, unvisited': seq<int>, size': nat)
    requires topology.Length0 == NodeSize && topology.Length1 == NodeSize
    requires SearchInv(Rows(topology), start, dist, prev, unvisited, size)
    requires 0 <= current < NodeSize && Pending(unvisited, size, current) && dist[current] < Unreached
    ensures size' < size
    ensures SearchInv(Rows(topology), start, dist', prev', unvisited', size')
  {
    unvisited' := RemoveNode(unvisited, size, current);
    size' := size - 1;
    dist', prev' := Relax(topology, dist, prev, unvisited', size', current);
    SearchStep(Rows(topology), start, dist, prev, unvisited, size, current, unvisited', dist', prev');
  }

  /** The main loop: runs until the selection finds no reached node still listed. */
  method Search(topology: array2<Int8>, start: nat, dist: seq<int>, prev: seq<int>, unvisited: seq<int>, size: nat)
    returns (minDistance: seq<int>, prevNode: seq<int>)
    requires topology.Length0 == NodeSize && topology.Length1 == NodeSize
    requires SearchInv(Rows(topology), start, dist, prev, unvisited, size)
    ensures Explored(Rows(topology), start, minDistance, prevNode) && Closed(Rows(topology), minDistance)
  {
    minDistance, prevNode := dist, prev;
    var unv, sz := unvisited, size;
    var isEmpty := false;
    while !isEmpty
      invariant !isEmpty && SearchInv(Rows(topology), start, minDistance, prevNode, unv, sz)
      decreases sz
    {
      var current := SelectNext(minDistance, unv, sz);
      if current == -1 {
        SearchDone(Rows(topology), start, minDistance, prevNode, unv, sz);
        return;
      }
      minDistance, prevNode, unv, sz := Visit(topology, start, minDistance, prevNode, unv, sz, current);
    }
  }

  // ---------------------------------------------------------------------
  // The predecessor chain and the reported path
  // ---------------------------------------------------------------------

  /**
   * A measure that falls along every predecessor step: the distance of a
   * reached node, 255 for an unreached node 0 and 256 for any other
   * unreached node (whose predecessor is node 0).
   */
  function Rank(dist: seq<int>, k: nat): nat
    requires k < |dist|
  {
    if 0 <= dist[k] < Unreached then dist[k] else if k == 0 then 255 else 256
  }

  /** Following `prev_node` ends at a node that is its own predecessor. */
  predicate Descends(dist: seq<int>, prev: seq<int>)
  {
    |dist| == NodeSize && |prev| == NodeSize &&
    forall k {:trigger prev[k]} :: 0 <= k < NodeSize ==> 0 <= prev[k] < NodeSize && (prev[k] == k || Rank(dist, prev[k]) < Rank(dist, k))
  }

  lemma ForestDescends(m: seq<seq<int>>, start: nat, dist: seq<int>, prev: seq<int>)
    requires IsMatrix(m) && start < NodeSize && Bounded(dist, prev) && Forest(m, start, dist, prev)
    ensures Descends(dist, prev)
  {
  }

  /** The nodes visited by the path-building loop, starting at `k`. */
  function Chain(dist: seq<int>, prev: seq<int>, k: nat): (c: seq<nat>)
    requires Descends(dist, prev) && k < NodeSize
    ensures 1 <= |c| && c[0] == k
    decreases Rank(dist, k)
  {
    if prev[k] == k then [k] else [k] + Chain(dist, prev, prev[k])
  }

  /** Each node of a chain is the predecessor of the one before, and the last is its own. */
  lemma {:induction false} ChainSteps(dist: seq<int>, prev: seq<int>, k: nat, c: seq<nat>)
    requires Descends(dist, prev) && k < NodeSize && c == Chain(dist, prev, k)
    ensures forall i :: 0 <= i < |c| ==> c[i] < NodeSize
    ensures forall i :: 0 <= i < |c| - 1 ==> c[i + 1] == prev[c[i]] && prev[c[i]] != c[i]
    ensures prev[c[|c| - 1]] == c[|c| - 1]
    decreases Rank(dist, k)
  {
    if prev[k] != k {
      var t := Chain(dist, prev, prev[k]);
      ChainSteps(dist, prev, prev[k], t);
      assert c == [k] + t;
      forall i | 0 <= i < |c| - 1
        ensures c[i + 1] == prev[c[i]] && prev[c[i]] != c[i]
      {
        if i > 0 {
          assert c[i] == t[i - 1] && c[i + 1] == t[i];
        }
      }
    }
  }

  /** Every node after the first lies strictly below it in rank, hence differs from it. */
  lemma {:induction false} ChainBelow(dist: seq<int>, prev: seq<int>, k: nat)
    requires Descends(dist, prev) && k < NodeSize
    ensures forall j :: 0 < j < |Chain(dist, prev, k)| ==>
      Chain(dist, prev, k)[j] < NodeSize && Rank(dist, Chain(dist, prev, k)[j]) < Rank(dist, k)
    decreases Rank(dist, k)
  {
    if prev[k] != k {
      ChainBelow(dist, prev, prev[k]);
      var t := Chain(dist, prev, prev[k]);
      var c := Chain(dist, prev, k);
      assert c == [k] + t;
      forall j | 0 < j < |c|
        ensures c[j] < NodeSize && Rank(dist, c[j]) < Rank(dist, k)
      {
        assert Rank(dist, prev[k]) < Rank(dist, k);
        if j > 1 {
          assert c[j] == t[j - 1];
        }
      }
    }
  }

  /** The chain never repeats a node. */
  lemma {:induction false} ChainDistinct(dist: seq<int>, prev: seq<int>, k: nat, c: seq<nat>)
    requires Descends(dist, prev) && k < NodeSize && c == Chain(dist, prev, k)
    ensures forall i, j :: 0 <= i < j < |c| ==> c[i] != c[j]
    decreases Rank(dist, k)
  {
    if prev[k] != k {
      var t := Chain(dist, prev, prev[k]);
      ChainDistinct(dist, prev, prev[k], t);
      ChainBelow(dist, prev, k);
      assert c == [k] + t;
      forall i, j | 0 <= i < j < |c|
        ensures c[i] != c[j]
      {
        if i > 0 {
          assert c[i] == t[i - 1] && c[j] == t[j - 1];
        } else {
          assert Rank(dist, c[j]) < Rank(dist, c[0]);
        }
      }
    }
  }

  /** A repetition-free sequence drawn from a finite set is no longer than the set is large. */
  lemma {:induction false} DistinctWithin(s: seq<nat>, values: set<nat>)
    requires forall i :: 0 <= i < |s| ==> s[i] in values
    requires forall i, j :: 0 <= i < j < |s| ==> s[i] != s[j]
    ensures |s| <= |values|
    decreases |s|
  {
    if s != [] {
      var x := s[|s| - 1];
      var t := s[..|s| - 1];
      forall i | 0 <= i < |t|
        ensures t[i] in values - {x}
      {
        assert t[i] == s[i];
      }
      DistinctWithin(t, values - {x});
    }
  }

  /** The node numbers 0 .. n-1. */
  function Nodes(n: nat): (r: set<nat>)
    ensures forall k: nat :: k in r <==> k < n
    ensures |r| == n
  {
    if n == 0 then {} else
      var r := Nodes(n - 1);
      assert r * {n - 1} == {};
      r + {n - 1}
  }

  /** The path-building loop stays within the 16 entries of `path_arr`. */
  lemma ChainFits(dist: seq<int>, prev: seq<int>, k: nat)
    requires Descends(dist, prev) && k < NodeSize
    ensures |Chain(dist, prev, k)| <= MaxPath
  {
    ChainSteps(dist, prev, k, Chain(dist, prev, k));
    ChainDistinct(dist, prev, k, Chain(dist, prev, k));
    DistinctWithin(Chain(dist, prev, k), Nodes(NodeSize));
  }

  /** `path_arr` after the reversal: the chain reversed, 1-based, zero padded. */
  function PathArray(c: seq<nat>): (p: seq<int>)
    ensures |p| == MaxPath
    ensures |c| <= MaxPath ==> forall j :: 0 <= j < |c| ==> p[j] == c[|c| - 1 - j] + 1
    ensures forall j :: |c| <= j < MaxPath ==> p[j] == 0
  {
    seq(MaxPath, j requires 0 <= j < MaxPath => if j < |c| then c[|c| - 1 - j] + 1 else 0)
  }

  /**
   * `matrix[row][col]`, with a read outside the matrix taken as 0; the one
   * such read the source makes is at column -1, when the chain has one node.
   */
  function CostAt(m: seq<seq<int>>, row: int, col: int): int
    requires IsMatrix(m)
  {
    if 0 <= row < NodeSize && 0 <= col < NodeSize then m[row][col] else 0
  }

  /**
   * The check after the path is built: the destination's matrix entry
   * towards the second node of the chain (its recorded predecessor) is -1.
   */
  predicate Blocked(m: seq<seq<int>>, src: int, dest: int, dist: seq<int>, prev: seq<int>)
    requires IsMatrix(m) && 1 <= src <= NodeSize && 1 <= dest <= NodeSize && Descends(dist, prev)
  {
    src != dest && CostAt(m, dest - 1, Second(Chain(dist, prev, dest - 1)) - 1) == -1
  }

  /** `path_arr[1]` after the path-building loop: the 1-based second node of the chain, or 0. */
  function Second(c: seq<nat>): int
  {
    if |c| > 1 then c[1] + 1 else 0
  }

  /**
   * The 16 entries `topo_compute_dijkstra` means to report: all zero when
   * the route is blocked, otherwise the chain from `dest` reversed.
   */
  function Route(m: seq<seq<int>>, src: int, dest: int, dist: seq<int>, prev: seq<int>): seq<int>
    requires IsMatrix(m) && 1 <= src <= NodeSize && 1 <= dest <= NodeSize && Descends(dist, prev)
  {
    if Blocked(m, src, dest, dist, prev) then seq(MaxPath, _ => 0)
    else PathArray(Chain(dist, prev, dest - 1))
  }

  /** The path-building loop: the chain from `end`, 1-based, in `path_arr` order. */
  method BuildPath(prev: seq<int>, ghost dist: seq<int>, end: nat, dest: int) returns (pathArr: seq<int>, count: nat)
    requires Descends(dist, prev) && end < NodeSize && dest == end + 1
    ensures count == |Chain(dist, prev, end)| <= MaxPath
    ensures |pathArr| == MaxPath
    ensures forall j :: 0 <= j < MaxPath ==> pathArr[j] == if j < count then Chain(dist, prev, end)[j] + 1 else 0
  {
    ghost var c := Chain(dist, prev, end);
    ChainFits(dist, prev, end);
    ChainSteps(dist, prev, end, c);
    pathArr := seq(MaxPath, _ => 0);
    var k := end;
    var itr := 1;
    var nodePathCounter := 0;
    while true
      invariant 1 <= itr <= |c| && k < NodeSize && c[itr - 1] == k
      invariant nodePathCounter == itr - 1 && |pathArr| == MaxPath
      invariant forall j :: 0 <= j < MaxPath ==> pathArr[j] == if 1 <= j < itr then c[j] + 1 else 0
      decreases Rank(dist, k)
    {
      if prev[k] == k {
        break;
      }
      assert itr < |c|;
      pathArr := pathArr[itr := prev[k] + 1];
      nodePathCounter := nodePathCounter + 1;
      k := prev[k];
      itr := itr + 1;
    }
    assert itr == |c|;
    pathArr := pathArr[0 := dest];
    count := nodePathCounter + 1;
  }

  /** The reversal loop: the first `count` entries in reverse order, the rest untouched. */
  method ReversePrefix(a: seq<int>, count: nat) returns (r: seq<int>)
    requires count <= |a|
    ensures |r| == |a|
    ensures forall j :: 0 <= j < count ==> r[j] == a[count - 1 - j]
    ensures forall j :: count <= j < |a| ==> r[j] == a[j]
  {
    r := a;
    if count == 0 {
      return;
    }
    var low, high := 0, count - 1;
    while low < high
      invariant 0 <= low && high < count && low + high == count - 1 && low <= high + 1 && |r| == |a|
      invariant forall j :: 0 <= j < low ==> r[j] == a[count - 1 - j]
      invariant forall j :: high < j < count ==> r[j] == a[count - 1 - j]
      invariant forall j :: (low <= j <= high || count <= j < |a|) ==> r[j] == a[j]
    {
      var temp := r[low];
      r := r[low := r[high]];
      r := r[high := temp];
      low, high := low + 1, high - 1;
    }
  }

  /** `memset(out_shortest, 0, max_path)`. */
  method ClearLeading(out: array<int>)
    requires out.Length == MaxPath
    modifies out
    ensures out[..CopiedEntries] == [0, 0, 0, 0]
    ensures out[CopiedEntries..] == old(out[CopiedEntries..])
  {
    for i := 0 to CopiedEntries
      invariant forall j :: 0 <= j < i ==> out[j] == 0
      invariant out[CopiedEntries..] == old(out[CopiedEntries..])
    {
      out[i] := 0;
    }
  }

  /** `memcpy(out_shortest, path_arr, max_path)`. */
  method CopyLeading(out: array<int>, pathArr: seq<int>)
    requires out.Length == MaxPath && |pathArr| == MaxPath
    modifies out
    ensures out[..CopiedEntries] == pathArr[..CopiedEntries]
    ensures out[CopiedEntries..] == old(out[CopiedEntries..])
  {
    for i := 0 to CopiedEntries
      invariant forall j :: 0 <= j < i ==> out[j] == pathArr[j]
      invariant out[CopiedEntries..] == old(out[CopiedEntries..])
    {
      out[i] := pathArr[i];
    }
  }

  /** The path part of `topo_compute_dijkstra`: build, check the last link, reverse. */
  method Report(topology: array2<Int8>, src: int, dest: int, prevNode: seq<int>, ghost dist: seq<int>) returns (pathArr: seq<int>)
    requires topology.Length0 == NodeSize && topology.Length1 == NodeSize
    requires 1 <= src <= NodeSize && 1 <= dest <= NodeSize && Descends(dist, prevNode)
    ensures pathArr == Route(Rows(topology), src, dest, dist, prevNode)
  {
    var end := dest - 1;
    var count;
    pathArr, count := BuildPath(prevNode, dist, end, dest);
    if src != dest {
      var blocked := SecondHopBlocked(topology, pathArr, count, dist, prevNode, end);
      if blocked {
        return seq(MaxPath, _ => 0);
      }
    }
    var built := pathArr;
    pathArr := ReversePrefix(pathArr, count);
    ReversedChain(Chain(dist, prevNode, end), built, pathArr);
  }

  /** The blocked check: the destination's entry towards the second path entry, read as 0 outside the matrix. */
  method SecondHopBlocked(topology: array2<Int8>, pathArr: seq<int>, count: nat, ghost dist: seq<int>, ghost prevNode: seq<int>, end: nat)
    returns (blocked: bool)
    requires topology.Length0 == NodeSize && topology.Length1 == NodeSize
    requires Descends(dist, prevNode) && end < NodeSize
    requires count == |Chain(dist, prevNode, end)| <= MaxPath && |pathArr| == MaxPath
    requires forall j :: 0 <= j < MaxPath ==> pathArr[j] == if j < count then Chain(dist, prevNode, end)[j] + 1 else 0
    ensures blocked <==> CostAt(Rows(topology), end, Second(Chain(dist, prevNode, end)) - 1) == -1
  {
    var second := pathArr[1];
    var cost := if 0 <= second - 1 < NodeSize then topology[end, second - 1] as int else 0;
    blocked := cost == -1;
  }

  /** Reversing the built prefix gives the chain's path array. */
  lemma ReversedChain(c: seq<nat>, built: seq<int>, r: seq<int>)
    requires |c| <= MaxPath && |built| == MaxPath && |r| == MaxPath
    requires forall j :: 0 <= j < MaxPath ==> built[j] == if j < |c| then c[j] + 1 else 0
    requires forall j :: 0 <= j < |c| ==> r[j] == built[|c| - 1 - j]
    requires forall j :: |c| <= j < MaxPath ==> r[j] == built[j]
    ensures r == PathArray(c)
  {
  }


  /**
   * `topo_compute_dijkstra`.  A start on fire clears the output; otherwise
   * the search runs to exhaustion and the first four entries of the route
   * to `dest` are written.  The distances and predecessors the search ends
   * with are returned as ghost results.
   */
  method ComputeDijkstra(topology: array2<Int8>, src: int, dest: int, out: array<int>)
    returns (ghost dist: seq<int>, ghost prev: seq<int>)
    requires topology.Length0 == NodeSize && topology.Length1 == NodeSize && out.Length == MaxPath
    requires 1 <= src <= NodeSize && 1 <= dest <= NodeSize
    modifies out
    ensures out[CopiedEntries..] == old(out[CopiedEntries..])
    ensures topology[src - 1, src - 1] == -1 ==> out[..CopiedEntries] == [0, 0, 0, 0]
    ensures topology[src - 1, src - 1] != -1 ==>
      Explored(Rows(topology), src - 1, dist, prev) && Closed(Rows(topology), dist) &&
      out[..CopiedEntries] == Route(Rows(topology), src, dest, dist, prev)[..CopiedEntries]
  {
    var start := src - 1;
    if topology[start, start] == -1 {
      ClearLeading(out);
      return [], [];
    }
    var prevNode, minDistance, unvisited, isEmpty, size := Initialise(src);
    InitialInv(Rows(topology), start, minDistance, prevNode, unvisited);
    minDistance, prevNode := Search(topology, start, minDistance, prevNode, unvisited, size);
    dist, prev := minDistance, prevNode;
    var pathArr := Report(topology, src, dest, prevNode, dist);
    CopyLeading(out, pathArr);
  }

  // ---------------------------------------------------------------------
  // What the reported route means
  // ---------------------------------------------------------------------

  /** A link of positive cost from node `a` to node `b`. */
  predicate Link(m: seq<seq<int>>, a: int, b: int)
    requires IsMatrix(m)
  {
    0 <= a < NodeSize && 0 <= b < NodeSize && m[a][b] > 0
  }

  /** The cost of walking a chain from its last node back to its first. */
  function ChainCost(m: seq<seq<int>>, c: seq<nat>): int
    requires IsMatrix(m)
  {
    if |c| <= 1 then 0 else CostAt(m, c[1], c[0]) + ChainCost(m, c[1..])
  }

  /** The chain from a reached node ends at the start. */
  lemma {:induction false} ReachedEnd(m: seq<seq<int>>, start: nat, dist: seq<int>, prev: seq<int>, k: nat, c: seq<nat>)
    requires Explored(m, start, dist, prev) && k < NodeSize && dist[k] < Unreached
    requires c == Chain(dist, prev, k)
    ensures c[|c| - 1] == start
    decreases dist[k]
  {
    if k != start {
      var t := Chain(dist, prev, prev[k]);
      ReachedEnd(m, start, dist, prev, prev[k], t);
      assert c == [k] + t;
    }
  }

  /**
   * From a reached node the chain is a walk of positive links back to the
   * start, and the node's distance is exactly the cost of that walk.
   */
  lemma {:induction false} ReachedChain(m: seq<seq<int>>, start: nat, dist: seq<int>, prev: seq<int>, k: nat, c: seq<nat>)
    requires Explored(m, start, dist, prev) && k < NodeSize && dist[k] < Unreached
    requires c == Chain(dist, prev, k)
    ensures forall i :: 0 <= i < |c| ==> c[i] < NodeSize
    ensures c[|c| - 1] == start
    ensures forall i :: 0 <= i < |c| - 1 ==> m[c[i + 1]][c[i]] > 0
    ensures ChainCost(m, c) == dist[k]
    decreases dist[k]
  {
    ChainSteps(dist, prev, k, c);
    if k != start {
      var t := Chain(dist, prev, prev[k]);
      ReachedChain(m, start, dist, prev, prev[k], t);
      assert c == [k] + t;
      assert c[1..] == t;
      forall i | 0 <= i < |c| - 1
        ensures m[c[i + 1]][c[i]] > 0
      {
        if i > 0 {
          assert c[i] == t[i - 1] && c[i + 1] == t[i];
        }
      }
    }
  }

  /**
   * For a reached destination whose route is not blocked, the reported
   * route is the destination's chain reversed (so, by `ReachedChain`, a walk
   * of positive links costing exactly the destination's distance): it
   * starts at `src`, ends at `dest` and is zero after the destination.
   */
  lemma RouteOfReached(m: seq<seq<int>>, src: int, dest: int, dist: seq<int>, prev: seq<int>, c: seq<nat>)
    requires 1 <= src <= NodeSize && 1 <= dest <= NodeSize && Explored(m, src - 1, dist, prev)
    requires dist[dest - 1] < Unreached && !Blocked(m, src, dest, dist, prev)
    requires c == Chain(dist, prev, dest - 1)
    ensures |c| <= MaxPath && Route(m, src, dest, dist, prev) == PathArray(c)
    ensures Route(m, src, dest, dist, prev)[0] == src && Route(m, src, dest, dist, prev)[|c| - 1] == dest
  {
    ReachedEnd(m, src - 1, dist, prev, dest - 1, c);
    ChainFits(dist, prev, dest - 1);
    RouteOfChain(m, src, dest, dist, prev, c, Route(m, src, dest, dist, prev));
  }

  lemma RouteOfChain(m: seq<seq<int>>, src: int, dest: int, dist: seq<int>, prev: seq<int>, c: seq<nat>, r: seq<int>)
    requires IsMatrix(m) && 1 <= src <= NodeSize && 1 <= dest <= NodeSize && Descends(dist, prev)
    requires c == Chain(dist, prev, dest - 1) && |c| <= MaxPath && c[|c| - 1] == src - 1
    requires !Blocked(m, src, dest, dist, prev) && r == Route(m, src, dest, dist, prev)
    ensures r == PathArray(c) && r[0] == src && r[|c| - 1] == dest
  {
  }

  /**
   * A destination the search never reached (other than node 1) is still
   * given a route when node 1 was not reached either: its predecessor
   * defaults to node 1, so unless that link is marked -1 the output reads
   * "1, dest", whatever `src` is.
   */
  lemma UnreachedRoutedViaNodeOne(m: seq<seq<int>>, src: int, dest: int, dist: seq<int>, prev: seq<int>)
    requires 1 <= src <= NodeSize && 1 <= dest <= NodeSize && Explored(m, src - 1, dist, prev)
    requires dest != 1 && src != 1 && dist[dest - 1] == Unreached && dist[0] == Unreached
    ensures Route(m, src, dest, dist, prev) ==
      if m[dest - 1][0] == -1 then seq(MaxPath, _ => 0)
      else [1, dest, 0, 0, 0, 0, 0, 0, 0, 0, 0, 0, 0, 0, 0, 0]
  {
    assert prev[dest - 1] == 0 && prev[0] == 0;
    assert Chain(dist, prev, 0) == [0];
    var c := Chain(dist, prev, dest - 1);
    assert c == [dest - 1, 0];
    assert src != dest;
    if m[dest - 1][0] != -1 {
      assert PathArray(c) == [1, dest, 0, 0, 0, 0, 0, 0, 0, 0, 0, 0, 0, 0, 0, 0];
    }
  }

  /** The link-cost update of the matrix in the repository's unit test. */
  method LinkCostExample()
  {
    var t := new Int8[NodeSize, NodeSize]((i, j) => 0);
    var copy := SetNodeLinkCost(t, 0, 2, 5);
    assert t[0, 2] == 5 && t[2, 0] == 5 && t[1, 1] == 0;
  }
}
