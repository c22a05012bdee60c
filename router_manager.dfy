/**
 * The simulator's router manager: it builds one router per row of the
 * example topology, records fires (cutting the burning router off the
 * topology) and lists, for every router, its shortest route to the exit.
 */
module RouterManager {
  import opened Text
  import opened RoutingTopology
  import opened DijkstraAlgorithm

  /** A router: its name, the link costs it was configured with, and whether it is on fire. */
  datatype Router = Router(id: string, costsOfSending: seq<int>, isFire: bool)

  /** The matrix `g` with every router among the first `k` of `rs` that is on fire burnt. */
  function Cut(g: Matrix, rs: seq<Router>, k: nat): (c: Matrix)
    requires Square(g) && k <= |rs|
    ensures Square(c) && |c| == |g|
  {
    if k == 0 then g
    else if rs[k - 1].isFire then Burn(Cut(g, rs, k - 1), k)
    else Cut(g, rs, k - 1)
  }

  /** Setting router `j` on fire burns it in the cut matrix, whatever the order of fires. */
  lemma {:induction false} CutSetFire(g: Matrix, rs: seq<Router>, j: nat, k: nat)
    requires Square(g) && j < |rs| && k <= |rs|
    ensures Cut(g, rs[j := rs[j].(isFire := true)], k) == if j < k then Burn(Cut(g, rs, k), j + 1) else Cut(g, rs, k)
  {
    var rs' := rs[j := rs[j].(isFire := true)];
    if k > 0 {
      CutSetFire(g, rs, j, k - 1);
      var before := Cut(g, rs, k - 1);
      if k - 1 == j {
        assert Cut(g, rs, k - 1) == Cut(g, rs', k - 1);
        BurnIdempotent(before, k);
      } else if j < k - 1 && rs[k - 1].isFire {
        BurnCommutes(before, j + 1, k);
      }
    }
  }

  /** A router on fire is cut off in the cut matrix. */
  lemma CutKeepsFire(g: Matrix, rs: seq<Router>, j: nat)
    requires Square(g) && j < |rs| <= |g| && rs[j].isFire
    ensures Burnt(Cut(g, rs, |rs|), j + 1)
  {
    var c := Cut(g, rs, |rs|);
    CutSetFire(g, rs, j, |rs|);
    assert rs[j := rs[j].(isFire := true)] == rs;
    BurnCutsRouter(c, j + 1);
  }

  /** A router on fire is reachable from no other router. */
  lemma CutMarksFire(g: Matrix, rs: seq<Router>, j: nat, s: int)
    requires Square(g) && j < |rs| <= |g| && rs[j].isFire && 0 <= s < |g| && s != j
    ensures !Reachable(Cut(g, rs, |rs|), s, j)
  {
    CutKeepsFire(g, rs, j);
    BurntUnreachable(Cut(g, rs, |rs|), j, s);
  }

  /** No path leads into a burnt router from another one. */
  lemma BurntUnreachable(g: Matrix, j: int, s: int)
    requires Square(g) && Burnt(g, j + 1) && 0 <= s < |g| && s != j
    ensures !Reachable(g, s, j)
  {
    forall p
      ensures PathFrom(g, s, j, p) ==> Cost(g, p) >= MaxValue
    {
      LastLink(g, s, j, p);
    }
  }

  /** A path between two different routers ends with a link of positive cost. */
  lemma LastLink(g: Matrix, s: int, v: int, p: seq<int>)
    requires Square(g)
    ensures PathFrom(g, s, v, p) && s != v ==> |p| >= 2 && 0 <= p[|p| - 2] < |g| && g[p[|p| - 2]][v] > 0
  {
  }

  /** Lines 24-27 of `ConfigureRouters`: router "R" + i, not on fire, with a copy of row i of `top`, for each row. */
  method RoutersOf(top: RoutingTopology) returns (list: seq<Router>)
    requires top.Valid()
    ensures |list| == |top.Grid()|
    ensures forall k :: 0 <= k < |list| ==> list[k] == Router(Name(k), top.Grid()[k], false)
  {
    list := [];
    for i := 0 to top.MatrixSize()
      invariant |list| == i
      invariant forall k :: 0 <= k < i ==> list[k] == Router(Name(k), top.Grid()[k], false)
    {
      var costs := top.GetLinksCostAt(i);
      var router := Router(Name(i), costs[..], false);
      list := list + [router];
    }
  }

  /** `"R" + i`: the name router `i` (numbered from 0) is configured with. */
  function Name(i: int): string
  {
    "R" + IntToString(i)
  }

  /** The line printed for one answer of `calcDijkstra`: nothing when it threw. */
  function Shown(r: Outcome<string>): string
  {
    if r.Thrown? then "" else r.value
  }

  /** The text `GetShortestPaths` builds from the answers for routers 1..|answers|. */
  function Listing(answers: seq<Outcome<string>>): string
  {
    if answers == [] then ""
    else Listing(answers[..|answers| - 1]) + "\n Routingpath from R" + IntToString(|answers|) + ": " + Shown(answers[|answers| - 1])
  }

  /** One more answer adds one more line. */
  lemma ListingStep(answers: seq<Outcome<string>>, r: Outcome<string>)
    ensures Listing(answers + [r]) == Listing(answers) + "\n Routingpath from R" + IntToString(|answers| + 1) + ": " + Shown(r)
  {
    assert (answers + [r])[..|answers|] == answers;
  }

  /**
   * Router `i` is named "R" + i and was configured with row `i` of the
   * example network, and `g` is that network with the routers on fire cut off.
   */
  ghost predicate Configured(rs: seq<Router>, g: Matrix)
  {
    InitialShape();
    |rs| == |Initial| &&
    (forall i :: 0 <= i < |rs| ==> rs[i].id == Name(i) && rs[i].costsOfSending == Initial[i]) &&
    g == Cut(Initial, rs, |rs|)
  }

  /** Fresh routers, one per row of the example network, make a configured manager. */
  lemma FreshRoutersConfigured(rs: seq<Router>)
    requires |rs| == |Initial|
    requires forall k :: 0 <= k < |rs| ==> rs[k] == Router(Name(k), Initial[k], false)
    ensures Configured(rs, Initial)
  {
    InitialShape();
    NoFireCut(Initial, rs, |rs|);
  }

  /** Answer `k` is what `calcDijkstra` gives for router `k + 1` and `exit`. */
  ghost predicate AllRouted(g: Matrix, exit: int, answers: seq<Outcome<string>>)
    requires Square(g)
  {
    forall k :: 0 <= k < |answers| ==> Routed(g, k + 1, exit, answers[k])
  }

  lemma AllRoutedStep(g: Matrix, exit: int, answers: seq<Outcome<string>>, r: Outcome<string>)
    requires Square(g) && AllRouted(g, exit, answers) && Routed(g, |answers| + 1, exit, r)
    ensures AllRouted(g, exit, answers + [r])
  {
  }

  /** In a configured manager every router on fire answers "Fire!". */
  lemma FireAnswers(rs: seq<Router>, g: Matrix, exit: int, answers: seq<Outcome<string>>)
    requires Configured(rs, g) && |answers| == |rs|
    requires Square(g) && AllRouted(g, exit, answers)
    ensures forall i :: 0 <= i < |rs| && rs[i].isFire ==> answers[i] == Returned("Fire!")
  {
    InitialShape();
    forall i | 0 <= i < |rs| && rs[i].isFire
      ensures answers[i] == Returned("Fire!")
    {
      CutKeepsFire(Initial, rs, i);
      assert Routed(g, i + 1, exit, answers[i]);
    }
  }

  /** Setting router `j` on fire and burning it keeps the manager configured. */
  lemma FireConfigured(rs: seq<Router>, g: Matrix, j: nat)
    requires Configured(rs, g) && j < |rs|
    ensures Configured(rs[j := rs[j].(isFire := true)], Burn(g, j + 1))
  {
    InitialShape();
    CutSetFire(Initial, rs, j, |rs|);
  }

  class RouterManager {
    var routers: seq<Router>
    var rTop: RoutingTopology

    /**
     * One router per row of the example topology, named "R0", "R1", ...
     * and configured with a copy of its row; the topology is the example
     * network with exactly the routers on fire cut off.
     */
    ghost predicate Valid()
      reads this, rTop, rTop.topology
    {
      rTop.Valid() && Configured(routers, rTop.Grid())
    }

    constructor ()
      ensures Valid() && fresh(rTop) && fresh(rTop.topology)
      ensures forall i :: 0 <= i < |routers| ==> !routers[i].isFire
    {
      routers := [];
      rTop := new RoutingTopology();
      new;
      var configured := ConfigureRouters();
    }

    /** Builds a new topology and one router, not on fire, per row of it. */
    method ConfigureRouters() returns (configured: bool)
      modifies this
      ensures configured && Valid() && fresh(rTop) && fresh(rTop.topology)
      ensures forall i :: 0 <= i < |routers| ==> !routers[i].isFire
    {
      var top := new RoutingTopology();
      var list := RoutersOf(top);
      routers, rTop := list, top;
      FreshRoutersConfigured(routers);
      return true;
    }

    /**
     * Sets router `routerNmbr` (numbered from 1) on fire and burns it in the
     * topology.  A number above the size changes nothing; one below 1 makes
     * the list lookup throw, which is caught, so it changes nothing either.
     */
    method AddFireAtRouter(routerNmbr: int) returns (done: bool)
      requires Valid()
      modifies this, rTop.topology
      ensures done && Valid() && rTop == old(rTop)
      ensures 1 <= routerNmbr <= |old(routers)| ==>
        routers == old(routers)[routerNmbr - 1 := old(routers)[routerNmbr - 1].(isFire := true)] &&
        rTop.Grid() == Burn(old(rTop.Grid()), routerNmbr)
      ensures !(1 <= routerNmbr <= |old(routers)|) ==> routers == old(routers) && rTop.Grid() == old(rTop.Grid())
    {
      if routerNmbr <= rTop.MatrixSize() {
        if 0 <= routerNmbr - 1 {
          var j := routerNmbr - 1;
          FireConfigured(routers, rTop.Grid(), j);
          routers := routers[j := routers[j].(isFire := true)];
          rTop.UpdateTopology(routerNmbr);
        }
      }
      return true;
    }

    /** Burns again every router on fire, which leaves the topology as it is. */
    method CheckForFire()
      requires Valid()
      modifies rTop.topology
      ensures Valid() && rTop.Grid() == old(rTop.Grid())
    {
      ghost var g0 := rTop.Grid();
      for i := 0 to |routers|
        invariant rTop.Valid() && rTop.Grid() == g0
      {
        if routers[i].isFire {
          CutKeepsFire(Initial, routers, i);
          BurnBurnt(g0, i + 1);
          rTop.UpdateTopology(i + 1);
        }
      }
    }

    /**
     * For every router, a line naming it (numbered from 1) followed by its
     * route to `exitRouter`; a router on fire gets "Fire!", and a call that
     * throws leaves just the name.
     */
    method GetShortestPaths(exitRouter: int) returns (strPath: string, ghost answers: seq<Outcome<string>>)
      requires Valid()
      ensures |answers| == |routers| && strPath == Listing(answers)
      ensures forall i :: 0 <= i < |routers| ==> Routed(rTop.Grid(), i + 1, exitRouter, answers[i])
      ensures forall i :: 0 <= i < |routers| && routers[i].isFire ==> answers[i] == Returned("Fire!")
    {
      ghost var g := rTop.Grid();
      var dijA := new DijkstraAlgorithm();
      strPath := "";
      answers := [];
      for i := 0 to |routers|
        invariant rTop.Grid() == g
        invariant |answers| == i && strPath == Listing(answers)
        invariant AllRouted(g, exitRouter, answers)
      {
        strPath := strPath + "\n Routingpath from R" + IntToString(i + 1) + ": ";
        var r := dijA.CalcDijkstra(i + 1, exitRouter, rTop.Grid());
        strPath := strPath + Shown(r);
        ListingStep(answers, r);
        AllRoutedStep(g, exitRouter, answers, r);
        answers := answers + [r];
      }
      FireAnswers(routers, g, exitRouter, answers);
    }

    /** Always answers that the router exists. */
    method RouterExists(routerNmbr: string) returns (exists_: bool)
      ensures exists_
    {
      exists_ := true;
    }
  }

  /** With no router on fire the cut matrix is the matrix itself. */
  lemma {:induction false} NoFireCut(g: Matrix, rs: seq<Router>, k: nat)
    requires Square(g) && k <= |rs|
    requires forall i :: 0 <= i < |rs| ==> !rs[i].isFire
    ensures Cut(g, rs, k) == g
  {
    if k > 0 {
      NoFireCut(g, rs, k - 1);
    }
  }
}
