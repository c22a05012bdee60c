/**
 * Dijkstra's algorithm as the link-state simulator runs it: shortest
 * distances from one source router over the links of positive cost, the
 * tree of previous routers, and the route to one destination printed by
 * walking that tree back from the destination and reversing the text
 * character by character.
 *
 * Routers are numbered from 1 in the interface and from 0 in the matrix.
 * A distance of `Integer.MAX_VALUE` means "not reached"; a router whose
 * cheapest path costs that much or more is treated as unreachable.
 */
module DijkstraAlgorithm {
  import opened Text
  import opened RoutingTopology

  /** A Java call either returns a value or throws. */
  datatype Outcome<T> = Thrown | Returned(value: T)

  /** `Integer.MAX_VALUE`, the distance of a router not reached yet. */
  const MaxValue: int := 0x7FFF_FFFF

  predicate IsNode(g: Matrix, v: int)
  {
    0 <= v < |g|
  }

  // ----- Paths and their costs: the specification -----

  /** `p` visits routers joined one to the next by links of positive cost. */
  predicate IsPath(g: Matrix, p: seq<int>)
    requires Square(g)
  {
    |p| > 0 && (forall i :: 0 <= i < |p| ==> IsNode(g, p[i])) &&
    forall i :: 0 < i < |p| ==> g[p[i - 1]][p[i]] > 0
  }

  /** The sum of the link costs along `p`. */
  function Cost(g: Matrix, p: seq<int>): (c: int)
    requires Square(g) && IsPath(g, p)
    ensures c >= 0
    ensures |p| > 1 ==> c > 0
  {
    if |p| == 1 then 0
    else
      assert IsPath(g, p[..|p| - 1]);
      Cost(g, p[..|p| - 1]) + g[p[|p| - 2]][p[|p| - 1]]
  }

  predicate PathFrom(g: Matrix, s: int, v: int, p: seq<int>)
    requires Square(g)
  {
    IsPath(g, p) && p[0] == s && p[|p| - 1] == v
  }

  /** Every path from `s` to `v` costs at least `c`. */
  ghost predicate Bounded(g: Matrix, s: int, v: int, c: int)
    requires Square(g)
  {
    forall p :: PathFrom(g, s, v, p) ==> Cost(g, p) >= c
  }

  /** `p` is a cheapest path from `s` to `v`. */
  ghost predicate Shortest(g: Matrix, s: int, v: int, p: seq<int>)
    requires Square(g)
  {
    PathFrom(g, s, v, p) && Bounded(g, s, v, Cost(g, p))
  }

  /** Some path from `s` to `v` costs less than `Integer.MAX_VALUE`. */
  ghost predicate Reachable(g: Matrix, s: int, v: int)
    requires Square(g)
  {
    !Bounded(g, s, v, MaxValue)
  }

  /**
   * The routers the printed route lists, destination first.  A reachable
   * destination gets a cheapest path, read backwards.  An unreachable one
   * has no previous router, which the array leaves at 0: unless it is
   * router 0 itself, the walk goes on from router 0, along a cheapest path
   * to router 0 when there is one.
   */
  ghost predicate Route(g: Matrix, s: int, e: int, w: seq<int>)
    requires Square(g) && IsNode(g, s) && IsNode(g, e)
  {
    if Reachable(g, s, e) then Shortest(g, s, e, Reverse(w))
    else if e == 0 then w == [0]
    else
      |w| >= 2 && w[0] == e &&
      if Reachable(g, s, 0) then Shortest(g, s, 0, Reverse(w[1..])) else w[1..] == [0]
  }

  /** The text of router `x`'s number followed by "R". */
  function Label(x: int): string
  {
    IntToString(x + 1) + "R"
  }

  /** The labels of `w` in order, joined by " >-- ". */
  function Trail(w: seq<int>): string
  {
    if |w| == 0 then ""
    else if |w| == 1 then Label(w[0])
    else Label(w[0]) + " >-- " + Trail(w[1..])
  }

  /** What `Trail(w)` adds after the first label. */
  function Tail(w: seq<int>): string
  {
    if |w| <= 1 then "" else " >-- " + Trail(w[1..])
  }

  /**
   * What `calcDijkstra(source, destination, g)` returns: it throws for a
   * source outside the matrix, answers "Fire!" for a source marked as
   * burnt, throws for a destination outside the matrix, and otherwise
   * returns the reversed text of a route.
   */
  ghost predicate Routed(g: Matrix, source: int, destination: int, r: Outcome<string>)
    requires Square(g)
  {
    if !IsNode(g, source - 1) then r == Thrown
    else if g[source - 1][source - 1] == -1 then r == Returned("Fire!")
    else if !IsNode(g, destination - 1) then r == Thrown
    else r.Returned? && exists w :: Route(g, source - 1, destination - 1, w) && r.value == Reverse(Trail(w))
  }

  // ----- The state of the algorithm -----

  /** Sizes, the source's own entries and the range of distances. */
  predicate Shape(g: Matrix, s: int, d: seq<int>, p: seq<int>, unvisited: set<int>)
  {
    Square(g) && IsNode(g, s) && |d| == |g| && |p| == |g| &&
    (forall v :: v in unvisited ==> IsNode(g, v)) &&
    d[s] == 0 && p[s] == s &&
    forall v :: 0 <= v < |d| ==> 0 <= d[v] <= MaxValue
  }

  /**
   * A router reached with a finite distance, other than the source, has a
   * visited previous router joined to it by a link that accounts for the
   * distance; a router not reached keeps previous router 0.
   */
  predicate Parented(g: Matrix, s: int, d: seq<int>, p: seq<int>, unvisited: set<int>)
    requires Shape(g, s, d, p, unvisited)
  {
    forall v :: 0 <= v < |g| && v != s ==>
      (d[v] < MaxValue ==> IsNode(g, p[v]) && p[v] !in unvisited && g[p[v]][v] > 0 && d[v] == d[p[v]] + g[p[v]][v]) &&
      (d[v] == MaxValue ==> p[v] == 0)
  }

  /** Every visited router has its final, shortest distance. */
  ghost predicate Settled(g: Matrix, s: int, d: seq<int>, unvisited: set<int>)
    requires Square(g) && |d| == |g|
  {
    forall v :: 0 <= v < |g| && v !in unvisited ==> d[v] < MaxValue && Bounded(g, s, v, d[v])
  }

  /** Every link out of a visited router has been relaxed. */
  predicate Relaxed(g: Matrix, d: seq<int>, unvisited: set<int>)
    requires Square(g) && |d| == |g|
  {
    forall x, y :: 0 <= x < |g| && 0 <= y < |g| && x !in unvisited && y in unvisited && g[x][y] > 0 ==>
      d[y] <= d[x] + g[x][y]
  }

  /** The invariant of the main loop of `calcDijkstra`. */
  ghost predicate Inv(g: Matrix, s: int, d: seq<int>, p: seq<int>, unvisited: set<int>)
  {
    Shape(g, s, d, p, unvisited) && Parented(g, s, d, p, unvisited) &&
    Settled(g, s, d, unvisited) && Relaxed(g, d, unvisited)
  }

  /** The arrays when the main loop is over: every distance is the shortest one. */
  ghost predicate Explored(g: Matrix, s: int, d: seq<int>, p: seq<int>)
  {
    Shape(g, s, d, p, {}) && Parented(g, s, d, p, {}) &&
    forall v :: 0 <= v < |g| ==> Bounded(g, s, v, d[v])
  }

  /** `d[u] + g[u][y]` beats the tentative distance of the unvisited router `y`. */
  predicate Improves(g: Matrix, u: int, d: seq<int>, unvisited: set<int>, y: int)
    requires Square(g) && IsNode(g, u) && |d| == |g| && IsNode(g, y)
  {
    y in unvisited && g[u][y] > 0 && d[u] + g[u][y] < d[y]
  }

  /** The distances after relaxing every link out of `u`. */
  function RelaxDist(g: Matrix, u: int, d: seq<int>, unvisited: set<int>): (r: seq<int>)
    requires Square(g) && IsNode(g, u) && |d| == |g|
    ensures |r| == |d|
  {
    seq(|d|, y requires 0 <= y < |d| => if Improves(g, u, d, unvisited, y) then d[u] + g[u][y] else d[y])
  }

  /** The previous routers after relaxing every link out of `u`. */
  function RelaxPrev(g: Matrix, u: int, d: seq<int>, p: seq<int>, unvisited: set<int>): (r: seq<int>)
    requires Square(g) && IsNode(g, u) && |d| == |g| && |p| == |g|
    ensures |r| == |p|
  {
    seq(|p|, y requires 0 <= y < |p| => if Improves(g, u, d, unvisited, y) then u else p[y])
  }

  // ----- Correctness of the main loop -----

  /**
   * A path from the source into an unvisited router passes through some
   * unvisited router whose tentative distance is at most the path's cost.
   */
  lemma {:induction false} EntersUnvisited(g: Matrix, s: int, d: seq<int>, p: seq<int>, unvisited: set<int>, v: int, q: seq<int>)
    returns (y: int)
    requires Inv(g, s, d, p, unvisited) && v in unvisited && PathFrom(g, s, v, q)
    ensures y in unvisited && d[y] <= Cost(g, q)
    decreases |q|
  {
    if |q| == 1 {
      y := s;
    } else {
      var q' := q[..|q| - 1];
      var x := q[|q| - 2];
      assert PathFrom(g, s, x, q');
      if x in unvisited {
        y := EntersUnvisited(g, s, d, p, unvisited, x, q');
      } else {
        assert Bounded(g, s, x, d[x]);
        y := v;
      }
    }
  }

  /** The unvisited router of least distance has its shortest distance. */
  lemma NearestSettles(g: Matrix, s: int, d: seq<int>, p: seq<int>, unvisited: set<int>, u: int)
    requires Inv(g, s, d, p, unvisited) && u in unvisited
    requires forall v :: v in unvisited ==> d[u] <= d[v]
    ensures Bounded(g, s, u, d[u])
  {
    forall q | PathFrom(g, s, u, q)
      ensures Cost(g, q) >= d[u]
    {
      var y := EntersUnvisited(g, s, d, p, unvisited, u, q);
    }
  }

  /** When every unvisited router has distance `Integer.MAX_VALUE`, none of them is reachable. */
  lemma RestUnreachable(g: Matrix, s: int, d: seq<int>, p: seq<int>, unvisited: set<int>)
    requires Inv(g, s, d, p, unvisited)
    requires forall v :: v in unvisited ==> d[v] >= MaxValue
    ensures forall v :: v in unvisited ==> Bounded(g, s, v, MaxValue)
  {
    forall v, q | v in unvisited && PathFrom(g, s, v, q)
      ensures Cost(g, q) >= MaxValue
    {
      var y := EntersUnvisited(g, s, d, p, unvisited, v, q);
    }
  }

  /** The arrays before the first pass. */
  lemma InitialInv(g: Matrix, s: int, d: seq<int>, p: seq<int>, unvisited: set<int>)
    requires Square(g) && IsNode(g, s) && |d| == |g| && |p| == |g|
    requires forall v :: v in unvisited <==> IsNode(g, v)
    requires forall v :: 0 <= v < |g| ==> d[v] == (if v == s then 0 else MaxValue) && p[v] == (if v == s then s else 0)
    ensures Inv(g, s, d, p, unvisited)
  {
  }

  /** Visiting the nearest unvisited router and relaxing its links keeps the invariant. */
  lemma StepKeepsInv(g: Matrix, s: int, d: seq<int>, p: seq<int>, unvisited: set<int>, u: int)
    requires Inv(g, s, d, p, unvisited) && u in unvisited && d[u] < MaxValue
    requires forall v :: v in unvisited ==> d[u] <= d[v]
    ensures Inv(g, s, RelaxDist(g, u, d, unvisited - {u}), RelaxPrev(g, u, d, p, unvisited - {u}), unvisited - {u})
  {
    var rest := unvisited - {u};
    var d' := RelaxDist(g, u, d, rest);
    var p' := RelaxPrev(g, u, d, p, rest);
    assert d'[u] == d[u];
    assert Shape(g, s, d', p', rest);
    assert Parented(g, s, d', p', rest) by {
      forall v | 0 <= v < |g| && v != s && d'[v] < MaxValue && !Improves(g, u, d, rest, v)
        ensures IsNode(g, p'[v]) && p'[v] !in rest && g[p'[v]][v] > 0 && d'[v] == d'[p'[v]] + g[p'[v]][v]
      {
        assert d'[p[v]] == d[p[v]];
      }
    }
    NearestSettles(g, s, d, p, unvisited, u);
    assert Settled(g, s, d', rest);
    assert Relaxed(g, d', rest);
  }

  /** When the loop stops, every distance is the shortest one. */
  lemma LoopExit(g: Matrix, s: int, d: seq<int>, p: seq<int>, unvisited: set<int>)
    requires Inv(g, s, d, p, unvisited)
    requires forall v :: v in unvisited ==> d[v] >= MaxValue
    ensures Explored(g, s, d, p)
  {
    RestUnreachable(g, s, d, p, unvisited);
  }

  // ----- Walking the previous routers back -----

  /** The previous routers lead back to a router that is its own previous router. */
  predicate WalkOk(p: seq<int>, d: seq<int>)
  {
    |p| == |d| &&
    forall v :: 0 <= v < |p| ==>
      0 <= p[v] < |p| && 0 <= d[v] <= MaxValue &&
      (p[v] != v && d[v] < MaxValue ==> d[p[v]] < d[v]) &&
      (d[v] == MaxValue ==> p[v] == 0)
  }

  /** Decreases along the previous routers. */
  function Rank(d: seq<int>, v: int): int
    requires 0 <= v < |d|
  {
    if d[v] < MaxValue then d[v] else if v == 0 then MaxValue else MaxValue + 1
  }

  /** The routers from `v` along the previous routers, up to one that is its own previous. */
  function Walk(p: seq<int>, d: seq<int>, v: int): (w: seq<int>)
    requires WalkOk(p, d) && 0 <= v < |p|
    ensures |w| > 0 && w[0] == v
    decreases Rank(d, v)
  {
    if p[v] == v then [v] else [v] + Walk(p, d, p[v])
  }

  /** One step of the walk adds one " >-- " and one label to the trail. */
  lemma TailStep(p: seq<int>, d: seq<int>, v: int)
    requires WalkOk(p, d) && 0 <= v < |p| && p[v] != v
    ensures Tail(Walk(p, d, v)) == (" >-- " + IntToString(p[v] + 1) + "R") + Tail(Walk(p, d, p[v]))
  {
    var w := Walk(p, d, v);
    var next := Walk(p, d, p[v]);
    assert w == [v] + next;
    assert w[1..] == next;
    assert Tail(w) == " >-- " + Trail(next);
    TrailHead(next);
    assert next[0] == p[v];
    assert Trail(next) == (IntToString(p[v] + 1) + "R") + Tail(next);
  }

  /** A trail is the first label followed by its tail. */
  lemma TrailHead(w: seq<int>)
    requires |w| > 0
    ensures Trail(w) == Label(w[0]) + Tail(w)
  {
  }

  lemma ExploredWalkOk(g: Matrix, s: int, d: seq<int>, p: seq<int>)
    requires Explored(g, s, d, p)
    ensures WalkOk(p, d)
  {
  }

  /** Read backwards, the walk from a reached router is a path from the source that costs its distance. */
  lemma {:induction false} WalkIsPath(g: Matrix, s: int, d: seq<int>, p: seq<int>, v: int)
    requires Explored(g, s, d, p) && IsNode(g, v) && d[v] < MaxValue
    ensures WalkOk(p, d)
    ensures PathFrom(g, s, v, Reverse(Walk(p, d, v))) && Cost(g, Reverse(Walk(p, d, v))) == d[v]
    decreases d[v]
  {
    ExploredWalkOk(g, s, d, p);
    if v != s {
      var u := p[v];
      WalkIsPath(g, s, d, p, u);
      var q := Reverse(Walk(p, d, u));
      ReverseAppend([v], Walk(p, d, u));
      assert Reverse(Walk(p, d, v)) == q + [v];
      assert (q + [v])[..|q|] == q;
    }
  }

  /** A router is reachable exactly when the algorithm gives it a distance below `Integer.MAX_VALUE`. */
  lemma ReachableIff(g: Matrix, s: int, d: seq<int>, p: seq<int>, v: int)
    requires Explored(g, s, d, p) && IsNode(g, v)
    ensures Reachable(g, s, v) <==> d[v] < MaxValue
  {
    if d[v] < MaxValue {
      WalkIsPath(g, s, d, p, v);
    }
  }

  /** The walk from the destination is the route the specification allows. */
  lemma ExploredRoute(g: Matrix, s: int, d: seq<int>, p: seq<int>, e: int)
    requires Explored(g, s, d, p) && IsNode(g, e)
    ensures WalkOk(p, d) && Route(g, s, e, Walk(p, d, e))
  {
    ExploredWalkOk(g, s, d, p);
    ReachableIff(g, s, d, p, e);
    ReachableIff(g, s, d, p, 0);
    if d[e] < MaxValue {
      WalkIsPath(g, s, d, p, e);
    } else if e != 0 {
      assert Walk(p, d, e)[1..] == Walk(p, d, 0);
      if d[0] < MaxValue {
        WalkIsPath(g, s, d, p, 0);
      }
    }
  }

  // ----- Reading the printed route -----

  /** The route as printed, router by router from the source: each name is "R" and its number's digits reversed. */
  function Reading(w: seq<int>): string
  {
    if |w| == 0 then ""
    else if |w| == 1 then Reverse(Label(w[0]))
    else Reading(w[1..]) + " --> " + Reverse(Label(w[0]))
  }

  /** Reversing the trail reads it from the source to the destination. */
  lemma {:induction false} ReversedTrail(w: seq<int>)
    ensures Reverse(Trail(w)) == Reading(w)
  {
    if |w| > 1 {
      var a, t := Label(w[0]), Trail(w[1..]);
      assert Trail(w) == (a + " >-- ") + t;
      ReversedTrail(w[1..]);
      ReverseAppend(a + " >-- ", t);
      ReverseAppend(a, " >-- ");
      ArrowReversed();
    }
  }

  lemma ArrowReversed()
    ensures Reverse(" >-- ") == " --> "
  {
  }

  /** A router numbered 1 to 9 is printed with its own name. */
  lemma SingleDigitName(x: int)
    requires 0 <= x < 9
    ensures Reverse(Label(x)) == "R" + IntToString(x + 1)
  {
    assert IntToString(x + 1) == [Digit(x + 1)];
  }

  /** From R1 to R3 through R4 prints as "R1 --> R4 --> R3". */
  lemma ReadingThreeRouters()
    ensures Reverse(Trail([2, 3, 0])) == "R1" + " --> " + "R4" + " --> " + "R3"
  {
    ReversedTrail([2, 3, 0]);
    SingleDigitName(0);
    SingleDigitName(2);
    SingleDigitName(3);
    assert Reverse(Label(0)) == "R1" && Reverse(Label(3)) == "R4" && Reverse(Label(2)) == "R3";
    assert [2, 3, 0][1..] == [3, 0];
    assert [3, 0][1..] == [0];
    assert Reading([3, 0]) == "R1" + " --> " + "R4";
    assert Reading([2, 3, 0]) == "R1" + " --> " + "R4" + " --> " + "R3";
  }

  /** Router 12's digits come out reversed: the route from R1 to R12 prints as "R1 --> R21". */
  lemma TwoDigitNameReversed()
    ensures Reverse(Trail([11, 0])) == "R1" + " --> " + "R21"
  {
    ReversedTrail([11, 0]);
    SingleDigitName(0);
    TwelveReversed();
    assert [11, 0][1..] == [0];
    assert Reading([11, 0]) == "R1" + " --> " + "R21";
  }

  /** Router 12 is printed as "R21". */
  lemma TwelveReversed()
    ensures Reverse(Label(11)) == "R21"
  {
    assert IntToString(12) == "12";
    assert Label(11) == "12R";
  }

  // ----- The algorithm -----

  /**
   * The unvisited router with the least distance below `Integer.MAX_VALUE`,
   * the lowest-numbered one among equals, or -1 when there is none.
   */
  method GetNextNode(minDistance: array<int>, nodeOrder: set<int>) returns (newNode: int)
    requires forall v :: v in nodeOrder ==> 0 <= v < minDistance.Length
    ensures newNode == -1 <==> forall v :: v in nodeOrder ==> minDistance[v] >= MaxValue
    ensures newNode != -1 ==>
      newNode in nodeOrder && minDistance[newNode] < MaxValue &&
      (forall v :: v in nodeOrder ==> minDistance[newNode] <= minDistance[v]) &&
      (forall v :: v in nodeOrder && v < newNode ==> minDistance[newNode] < minDistance[v])
  {
    var min := MaxValue;
    newNode := -1;
    for i := 0 to minDistance.Length
      invariant newNode == -1 ==> min == MaxValue
      invariant newNode != -1 ==> newNode in nodeOrder && newNode < i && min == minDistance[newNode] < MaxValue
      invariant forall v :: v in nodeOrder && v < i ==> min <= minDistance[v]
      invariant forall v :: v in nodeOrder && v < newNode ==> min < minDistance[v]
    {
      if i in nodeOrder && minDistance[i] < min {
        newNode := i;
        min := minDistance[i];
      }
    }
  }

  /** Relaxes every link from `u` to an unvisited router, in place. */
  method Relax(g: Matrix, u: int, minDistance: array<int>, prevNode: array<int>, unvisitedNodes: set<int>)
    requires Square(g) && IsNode(g, u) && u !in unvisitedNodes
    requires minDistance.Length == |g| && prevNode.Length == |g| && minDistance != prevNode
    modifies minDistance, prevNode
    ensures minDistance[..] == RelaxDist(g, u, old(minDistance[..]), unvisitedNodes)
    ensures prevNode[..] == RelaxPrev(g, u, old(minDistance[..]), old(prevNode[..]), unvisitedNodes)
  {
    ghost var d := minDistance[..];
    ghost var p := prevNode[..];
    for i := 0 to |g|
      invariant minDistance[u] == d[u]
      invariant forall y :: 0 <= y < |g| ==>
        minDistance[y] == (if y < i then RelaxDist(g, u, d, unvisitedNodes)[y] else d[y]) &&
        prevNode[y] == (if y < i then RelaxPrev(g, u, d, p, unvisitedNodes)[y] else p[y])
    {
      if i in unvisitedNodes && g[u][i] > 0 {
        var newDistance := minDistance[u] + g[u][i];
        if newDistance < minDistance[i] {
          minDistance[i] := newDistance;
          prevNode[i] := u;
        }
      }
    }
    assert minDistance[..] == RelaxDist(g, u, d, unvisitedNodes);
    assert prevNode[..] == RelaxPrev(g, u, d, p, unvisitedNodes);
  }

  /**
   * Lines 27-54 of `calcDijkstra`: every router starts unvisited and, but
   * for the source, at `Integer.MAX_VALUE`; then the nearest unvisited
   * router is visited and its links relaxed until no unvisited router is
   * reached.
   */
  method Explore(g: Matrix, start: int, minDistance: array<int>, prevNode: array<int>)
    requires Square(g) && IsNode(g, start)
    requires minDistance.Length == |g| && prevNode.Length == |g| && minDistance != prevNode
    requires forall v :: 0 <= v < |g| ==> minDistance[v] == 0 && prevNode[v] == 0
    modifies minDistance, prevNode
    ensures Explored(g, start, minDistance[..], prevNode[..])
  {
    var matrixSize := |g|;
    var unvisitedNodes: set<int> := {};
    for i := 0 to matrixSize
      invariant forall v :: v in unvisitedNodes <==> 0 <= v < i
      invariant forall v :: 0 <= v < matrixSize ==> prevNode[v] == 0
      invariant forall v :: 0 <= v < matrixSize ==> minDistance[v] == (if v < i && v != start then MaxValue else 0)
    {
      unvisitedNodes := unvisitedNodes + {i};
      if i != start {
        minDistance[i] := MaxValue;
      }
    }
    prevNode[start] := start;
    InitialInv(g, start, minDistance[..], prevNode[..], unvisitedNodes);
    while unvisitedNodes != {}
      invariant Inv(g, start, minDistance[..], prevNode[..], unvisitedNodes)
      decreases |unvisitedNodes|
    {
      var currentNode := GetNextNode(minDistance, unvisitedNodes);
      if currentNode == -1 {
        break;
      }
      ghost var d, p, before := minDistance[..], prevNode[..], unvisitedNodes;
      unvisitedNodes := unvisitedNodes - {currentNode};
      Relax(g, currentNode, minDistance, prevNode, unvisitedNodes);
      StepKeepsInv(g, start, d, p, before, currentNode);
    }
    LoopExit(g, start, minDistance[..], prevNode[..], unvisitedNodes);
  }

  /** Lines 88-90 of `getShortestPathString`: the characters of `reversedPath`, last first. */
  method ReverseChars(reversedPath: string) returns (path: string)
    ensures path == Reverse(reversedPath)
  {
    path := "";
    var j := |reversedPath| - 1;
    while j >= 0
      invariant -1 <= j < |reversedPath|
      invariant path == Reverse(reversedPath[j + 1..])
    {
      assert reversedPath[j..][1..] == reversedPath[j + 1..];
      path := path + [reversedPath[j]];
      j := j - 1;
    }
    assert reversedPath[0..] == reversedPath;
  }

  class DijkstraAlgorithm {
    var prevNode: array<int>
    var start: int
    var end: int

    constructor ()
      ensures start == 0 && end == 0 && prevNode.Length == 0
    {
      prevNode := new int[0];
      start := 0;
      end := 0;
    }

    /**
     * The route from `start` to `end`: the names met walking the previous
     * routers back from `end`, joined by " >-- ", then reversed character
     * by character.  Throws when `end` is outside the array.
     */
    method GetShortestPathString(len: int, topMatrix: Matrix, ghost d: seq<int>) returns (r: Outcome<string>)
      requires WalkOk(prevNode[..], d)
      ensures !(0 <= end < prevNode.Length) ==> r == Thrown
      ensures 0 <= end < prevNode.Length ==> r == Returned(Reverse(Trail(Walk(prevNode[..], d, end))))
    {
      if !(0 <= end < prevNode.Length) {
        return Thrown;
      }
      var reversedPath := WalkBack(d);
      var path := ReverseChars(reversedPath);
      return Returned(path);
    }

    /**
     * Lines 74-86 of `getShortestPathString`: the label of `end`, then
     * " >-- " and the label of each previous router until one is its own
     * previous router.
     */
    method WalkBack(ghost d: seq<int>) returns (reversedPath: string)
      requires WalkOk(prevNode[..], d) && 0 <= end < prevNode.Length
      ensures reversedPath == Trail(Walk(prevNode[..], d, end))
    {
      var destination := end + 1;
      var i := end;
      reversedPath := IntToString(destination) + "R";
      ghost var p := prevNode[..];
      TrailHead(Walk(p, d, end));
      while true
        invariant 0 <= i < prevNode.Length
        invariant Trail(Walk(p, d, end)) == reversedPath + Tail(Walk(p, d, i))
        decreases Rank(d, i)
      {
        if prevNode[i] == i {
          break;
        }
        TailStep(p, d, i);
        assert p[i] == prevNode[i];
        AppendAssoc(reversedPath, " >-- " + IntToString(p[i] + 1) + "R", Tail(Walk(p, d, p[i])));
        reversedPath := reversedPath + (" >-- " + IntToString(prevNode[i] + 1) + "R");
        i := prevNode[i];
      }
      assert Tail(Walk(p, d, i)) == [];
      assert reversedPath + [] == reversedPath;
    }

    /**
     * The shortest route from router `source` to router `destination`
     * (both numbered from 1) over `topologyMatrix`, as text.
     */
    method CalcDijkstra(source: int, destination: int, topologyMatrix: Matrix) returns (r: Outcome<string>)
      requires Square(topologyMatrix)
      modifies this
      ensures Routed(topologyMatrix, source, destination, r)
      ensures start == source - 1 && end == destination - 1 && prevNode.Length == |topologyMatrix|
    {
      var matrixSize := |topologyMatrix|;
      var minDistance := new int[matrixSize](_ => 0);
      prevNode := new int[matrixSize](_ => 0);
      start := source - 1;
      end := destination - 1;
      if !(0 <= start < matrixSize) {
        return Thrown;
      }
      if topologyMatrix[start][start] == -1 {
        return Returned("Fire!");
      }
      Explore(topologyMatrix, start, minDistance, prevNode);
      ghost var d := minDistance[..];
      ExploredWalkOk(topologyMatrix, start, d, prevNode[..]);
      r := GetShortestPathString(matrixSize, topologyMatrix, d);
      if 0 <= end < matrixSize {
        ExploredRoute(topologyMatrix, start, d, prevNode[..], end);
      }
    }
  }
}
