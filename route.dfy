/**
 * The two entry points of the router: a_star (main.py, lines 155-266),
 * which checks both ids, searches, reconstructs and assembles, and the
 * same-station short-circuit of compute_route (main.py, lines 280-288).
 */
module Route {
  import opened Graph
  import opened Cost
  import opened Search
  import opened Itinerary

  /** The two conditions the core raises: unknown id (HTTP 404) and no route (HTTP 400). */
  datatype RouteError = StationNotFound | NoRouteFound

  datatype Result<T> = Ok(value: T) | Err(error: RouteError)

  /** No ordered pair of stations is joined both by a line edge and by a transfer edge. */
  predicate Unambiguous(es: seq<Edge>) {
    forall i :: 0 <= i < |es| ==> Edge(es[i].from, es[i].to, if es[i].kind == Line then Transfer else Line) !in es
  }

  /** The edges the search recorded along `path`: the link used to reach each station after the first. */
  function PathWalk(via: map<Id, Edge>, path: seq<Id>): (w: seq<Edge>)
    requires forall i :: 0 < i < |path| ==> path[i] in via
    ensures |w| == if |path| == 0 then 0 else |path| - 1
    ensures forall i :: 0 <= i < |w| ==> w[i] == via[path[i + 1]]
  {
    if |path| < 2 then [] else PathWalk(via, path[..|path| - 1]) + [via[path[|path| - 1]]]
  }

  /** Each station after the first has the one before it as predecessor. */
  predicate Linked(cameFrom: map<Id, Id>, p: seq<Id>) {
    forall i :: 0 < i < |p| ==> p[i] in cameFrom && cameFrom[p[i]] == p[i - 1]
  }

  /**
   * A chain of predecessor links is a walk along the recorded edges, and its
   * search score is at most the rise in g-score along it.
   */
  lemma {:induction false} ChainWalk(q: Query, cameFrom: map<Id, Id>, g: map<Id, real>, via: map<Id, Edge>, p: seq<Id>)
    requires q.Valid() && Links(q, cameFrom, g, via)
    requires |p| >= 1 && p[0] in g && Linked(cameFrom, p)
    ensures forall i :: 0 < i < |p| ==> p[i] in via
    ensures p[|p| - 1] in g
    ensures IsWalk(q.net.edges, PathWalk(via, p), p[0], p[|p| - 1]) && EdgesKnown(q.net.stations, PathWalk(via, p))
    ensures SearchCost(q.net, q.metric, q.opts, PathWalk(via, p)) <= g[p[|p| - 1]] - g[p[0]]
  {
    var n := |p|;
    if n >= 2 {
      var init := p[..n - 1];
      assert Linked(cameFrom, init) by {
        forall i | 0 < i < |init| ensures init[i] in cameFrom && cameFrom[init[i]] == init[i - 1] {
          assert init[i] == p[i] && init[i - 1] == p[i - 1];
        }
      }
      ChainWalk(q, cameFrom, g, via, init);
      var e := via[p[n - 1]];
      var wInit := PathWalk(via, init);
      assert PathWalk(via, p) == wInit + [e];
      WalkAppend(q.net.edges, wInit, e, p[0], p[n - 2]);
      KnownAppend(q.net.stations, wInit, [e]);
      assert (wInit + [e])[..|wInit|] == wInit;
    }
  }

  /** No station occurs twice. */
  predicate Distinct(p: seq<Id>) {
    forall i, j :: 0 <= i < j < |p| ==> p[i] != p[j]
  }

  /** `w` has one listed edge per step of `path`, from each station to the next. */
  predicate Steps(net: Network, path: seq<Id>, w: seq<Edge>) {
    |path| >= 1 && |w| == |path| - 1 &&
    forall i :: 0 <= i < |w| ==> w[i] in net.edges && w[i].from == path[i] && w[i].to == path[i + 1]
  }

  /**
   * In a finished search forest, the chain rebuilt from a ranked station
   * starts at the origin, is linked by predecessors and repeats no station.
   */
  lemma ChainFromForest(q: Query, cameFrom: map<Id, Id>, g: map<Id, real>, tc: map<Id, nat>, via: map<Id, Edge>,
                        rank: map<Id, nat>, v: Id)
    requires q.Valid() && Forest(q, cameFrom, g, tc, via, rank) && v in rank
    ensures Descending(cameFrom, rank)
    ensures var path := ChainTo(cameFrom, q.origin, rank, v);
            path[0] == q.origin && Linked(cameFrom, path) && Distinct(path)
  {
    var path := ChainTo(cameFrom, q.origin, rank, v);
    assert path[0] in rank;
    forall i, j | 0 <= i < j < |path| ensures path[i] != path[j] {
      ChainHasNoRepeats(cameFrom, q.origin, rank, v, i, j);
    }
  }

  /**
   * Following came_from from any station the search scored ends at the
   * origin without visiting a station twice: the predecessor map has no
   * cycle, whether or not the station was selected.
   */
  lemma ReachedChain(q: Query, cameFrom: map<Id, Id>, g: map<Id, real>, tc: map<Id, nat>, via: map<Id, Edge>,
                     rank: map<Id, nat>, v: Id)
    requires q.Valid() && Forest(q, cameFrom, g, tc, via, rank) && v in g
    ensures exists path :: |path| >= 1 && path[0] == q.origin && path[|path| - 1] == v &&
                           Linked(cameFrom, path) && Distinct(path)
  {
    var path := ReachedPath(q, cameFrom, g, tc, via, rank, v);
  }

  /** The chain of ReachedChain: the ranked chain to `v`, or to its predecessor followed by `v`. */
  lemma ReachedPath(q: Query, cameFrom: map<Id, Id>, g: map<Id, real>, tc: map<Id, nat>, via: map<Id, Edge>,
                    rank: map<Id, nat>, v: Id) returns (path: seq<Id>)
    requires q.Valid() && Forest(q, cameFrom, g, tc, via, rank) && v in g
    ensures |path| >= 1 && path[0] == q.origin && path[|path| - 1] == v
    ensures Linked(cameFrom, path) && Distinct(path)
  {
    if v in rank {
      ChainFromForest(q, cameFrom, g, tc, via, rank, v);
      path := ChainTo(cameFrom, q.origin, rank, v);
    } else if v == q.origin {
      path := [v];
    } else {
      var u := cameFrom[v];
      ChainFromForest(q, cameFrom, g, tc, via, rank, u);
      var prefix := ChainTo(cameFrom, q.origin, rank, u);
      assert v !in prefix;
      ChainExtend(cameFrom, prefix, v);
      path := prefix + [v];
      assert path[0] == q.origin;
    }
  }

  /** A linked chain of distinct stations grows by a station, not on it, whose predecessor is its last. */
  lemma ChainExtend(cameFrom: map<Id, Id>, prefix: seq<Id>, v: Id)
    requires |prefix| >= 1 && Linked(cameFrom, prefix) && Distinct(prefix)
    requires v in cameFrom && cameFrom[v] == prefix[|prefix| - 1] && v !in prefix
    ensures Linked(cameFrom, prefix + [v]) && Distinct(prefix + [v])
  {
    var path := prefix + [v];
    forall i | 0 < i < |path| ensures path[i] in cameFrom && cameFrom[path[i]] == path[i - 1] {
      if i < |prefix| {
        assert path[i] == prefix[i] && path[i - 1] == prefix[i - 1];
      }
    }
    forall i, j | 0 <= i < j < |path| ensures path[i] != path[j] {
      if j < |prefix| {
        assert path[i] == prefix[i] && path[j] == prefix[j];
      } else {
        assert path[i] == prefix[i];
      }
    }
  }

  /**
   * Along a chain of predecessor links the tie-break count rises by one per
   * transfer link, so a node's count is the number of transfers on the
   * recorded edges from the chain's start.
   */
  lemma {:induction false} ChainTransfers(q: Query, cameFrom: map<Id, Id>, tc: map<Id, nat>, via: map<Id, Edge>, p: seq<Id>)
    requires Counted(q, cameFrom, tc, via)
    requires |p| >= 1 && p[0] in tc && Linked(cameFrom, p)
    ensures forall i :: 0 < i < |p| ==> p[i] in via
    ensures p[|p| - 1] in tc && tc[p[|p| - 1]] == tc[p[0]] + TransfersOn(PathWalk(via, p))
  {
    var n := |p|;
    forall i | 0 < i < n ensures p[i] in via {
      assert p[i] in cameFrom;
    }
    if n >= 2 {
      var init := p[..n - 1];
      assert Linked(cameFrom, init) by {
        forall i | 0 < i < |init| ensures init[i] in cameFrom && cameFrom[init[i]] == init[i - 1] {
          assert init[i] == p[i] && init[i - 1] == p[i - 1];
        }
      }
      ChainTransfers(q, cameFrom, tc, via, init);
      var last := p[n - 1];
      assert cameFrom[last] == init[|init| - 1];
      var link := via[last];
      assert PathWalk(via, p) == PathWalk(via, init) + [link];
      TransfersSnoc(PathWalk(via, init), link);
    }
  }

  /** Appending an edge adds one transfer exactly when it is a transfer edge. */
  lemma TransfersSnoc(w: seq<Edge>, e: Edge)
    ensures TransfersOn(w + [e]) == TransfersOn(w) + (if e.kind == Transfer then 1 else 0)
  {
    assert (w + [e])[..|w|] == w;
  }

  /** A linked chain of distinct stations from origin to destination follows the recorded edges. */
  lemma ChainFollows(q: Query, cameFrom: map<Id, Id>, g: map<Id, real>, via: map<Id, Edge>, path: seq<Id>)
    requires q.Valid() && Links(q, cameFrom, g, via) && q.origin in g
    requires |path| >= 1 && path[0] == q.origin && path[|path| - 1] == q.dest
    requires Linked(cameFrom, path) && Distinct(path)
    ensures forall i :: 0 < i < |path| ==> path[i] in via
    ensures Follows(q.net, q.origin, q.dest, path, PathWalk(via, path))
  {
    ChainWalk(q, cameFrom, g, via, path);
    var used := PathWalk(via, path);
    forall i | 0 <= i < |used| ensures used[i].from == path[i] && used[i].to == path[i + 1] {
      var link := via[path[i + 1]];
    }
    forall i | 0 <= i < |path| ensures path[i] in q.net.stations {
      if i > 0 {
        assert used[i - 1] in q.net.edges;
      }
    }
  }

  /** The edges recorded along a linked chain from the origin, where the destination's score is cheapest, form a cheapest walk. */
  lemma ChainLeast(q: Query, cameFrom: map<Id, Id>, g: map<Id, real>, via: map<Id, Edge>, path: seq<Id>)
    requires q.Valid() && Links(q, cameFrom, g, via)
    requires q.origin in g && g[q.origin] == 0.0 && q.dest in g && Cheapest(q, q.origin, q.dest, g[q.dest])
    requires |path| >= 1 && path[0] == q.origin && path[|path| - 1] == q.dest && Linked(cameFrom, path)
    ensures forall i :: 0 < i < |path| ==> path[i] in via
    ensures EdgesKnown(q.net.stations, PathWalk(via, path))
    ensures Least(q.net, q.metric, q.opts, q.origin, q.dest, PathWalk(via, path))
  {
    ChainWalk(q, cameFrom, g, via, path);
  }

  /** A one-station path assembles to an empty itinerary. */
  lemma AssembledSingle(net: Network, metric: Metric, opts: Options, v: Id)
    requires v in net.stations
    ensures OnCatalog(net, [v])
    ensures Assembled(net, metric, opts, [v]) == RouteResult([v], [], 0.0, 0.0, 0, [])
  {
  }

  /**
   * Everything a_star concludes once the destination was reached: the chain
   * from it answers the request, and the destination is reachable.
   */
  lemma Found(q: Query, cameFrom: map<Id, Id>, g: map<Id, real>, tc: map<Id, nat>, via: map<Id, Edge>, rank: map<Id, nat>)
    requires q.Valid() && Forest(q, cameFrom, g, tc, via, rank)
    requires q.dest in g && q.dest in rank && Cheapest(q, q.origin, q.dest, g[q.dest])
    ensures Descending(cameFrom, rank)
    ensures var path := ChainTo(cameFrom, q.origin, rank, q.dest);
            (forall i :: 0 < i < |path| ==> path[i] in via) && OnCatalog(q.net, path) &&
            Answers(q.net, q.metric, q.opts, q.origin, q.dest, Assembled(q.net, q.metric, q.opts, path), PathWalk(via, path))
    ensures Reachable(q.net.edges, q.origin, q.dest)
  {
    ChainFromForest(q, cameFrom, g, tc, via, rank, q.dest);
    var path := ChainTo(cameFrom, q.origin, rank, q.dest);
    ChainFollows(q, cameFrom, g, via, path);
    ChainLeast(q, cameFrom, g, via, path);
    Answered(q.net, q.metric, q.opts, q.origin, q.dest, path, PathWalk(via, path));
  }

  /** A path that follows a cheapest walk answers the request, and the destination is reachable. */
  lemma Answered(net: Network, metric: Metric, opts: Options, origin: Id, dest: Id, path: seq<Id>, used: seq<Edge>)
    requires net.WellFormed() && Follows(net, origin, dest, path, used) && Least(net, metric, opts, origin, dest, used)
    ensures OnCatalog(net, path)
    ensures Answers(net, metric, opts, origin, dest, Assembled(net, metric, opts, path), used)
    ensures Reachable(net.edges, origin, dest)
  {
    if Unambiguous(net.edges) {
      ReportedMatchesSearch(net, metric, opts, path, used);
    }
    assert IsWalk(net.edges, used, origin, dest);
  }

  /** With unambiguous kinds, the reported total cost plus the bias per transfer is the search score of the edges used. */
  lemma ReportedMatchesSearch(net: Network, metric: Metric, opts: Options, path: seq<Id>, used: seq<Edge>)
    requires net.WellFormed() && Unambiguous(net.edges) && OnCatalog(net, path) && Steps(net, path, used)
    ensures EdgesKnown(net.stations, used)
    ensures TotalCost(Segments(net, metric, opts, path)) + TransferSurcharge(opts, TransferCount(Segments(net, metric, opts, path)))
            == SearchCost(net, metric, opts, used)
  {
    LegsFollowWalk(net, metric, opts, path, used);
    TotalsMatchSearch(net, metric, opts, Segments(net, metric, opts, path), used);
  }

  /** Legs that match a chain of edges one for one report its search score less the bias per transfer. */
  lemma TotalsMatchSearch(net: Network, metric: Metric, opts: Options, segs: seq<RouteSegment>, w: seq<Edge>)
    requires EdgesKnown(net.stations, w) && |segs| == |w|
    requires forall i :: 0 <= i < |w| ==> segs[i].kind == w[i].kind && segs[i].cost == EdgeCost(net, metric, opts, w[i])
    ensures TotalCost(segs) + TransferSurcharge(opts, TransferCount(segs)) == SearchCost(net, metric, opts, w)
  {
    TotalsFollowWalk(net, metric, opts, segs, w);
    SearchCostSplits(net, metric, opts, w);
  }

  /** With unambiguous kinds, each leg of the itinerary carries the kind and the step cost of the edge the search used. */
  lemma LegsFollowWalk(net: Network, metric: Metric, opts: Options, path: seq<Id>, w: seq<Edge>)
    requires net.WellFormed() && Unambiguous(net.edges) && OnCatalog(net, path) && Steps(net, path, w)
    ensures EdgesKnown(net.stations, w)
    ensures forall i :: 0 <= i < |w| ==>
              Segments(net, metric, opts, path)[i].kind == w[i].kind &&
              Segments(net, metric, opts, path)[i].cost == EdgeCost(net, metric, opts, w[i])
  {
    var segs := Segments(net, metric, opts, path);
    forall i | 0 <= i < |w| ensures w[i].from in net.stations && w[i].to in net.stations {
      assert w[i] in net.edges;
    }
    forall i | 0 <= i < |w|
      ensures segs[i].kind == w[i].kind && segs[i].cost == EdgeCost(net, metric, opts, w[i])
    {
      var a, b := path[i], path[i + 1];
      var x :| 0 <= x < |net.edges| && net.edges[x] == w[i];
      assert w[i] == Edge(a, b, w[i].kind);
      SegmentCostIsEdgeCost(net, metric, opts, a, b, w[i].kind);
    }
  }

  /** Legs that match a chain of edges one for one add up to its reported cost and its transfer count. */
  lemma {:induction false} TotalsFollowWalk(net: Network, metric: Metric, opts: Options, segs: seq<RouteSegment>, w: seq<Edge>)
    requires EdgesKnown(net.stations, w) && |segs| == |w|
    requires forall i :: 0 <= i < |w| ==> segs[i].kind == w[i].kind && segs[i].cost == EdgeCost(net, metric, opts, w[i])
    ensures TotalCost(segs) == ReportedCost(net, metric, opts, w)
    ensures TransferCount(segs) == TransfersOn(w)
  {
    if w != [] {
      InitKnown(net.stations, w);
      var n := |w|;
      var segsInit, wInit := segs[..n - 1], w[..n - 1];
      forall i | 0 <= i < n - 1
        ensures segsInit[i].kind == wInit[i].kind && segsInit[i].cost == EdgeCost(net, metric, opts, wInit[i])
      {
        assert segsInit[i] == segs[i] && wInit[i] == w[i];
      }
      TotalsFollowWalk(net, metric, opts, segsInit, wInit);
    }
  }

  /** The path runs from `origin` to `dest` through distinct catalogued stations, one edge of `used` per step. */
  ghost predicate Follows(net: Network, origin: Id, dest: Id, path: seq<Id>, used: seq<Edge>) {
    |path| >= 1 && path[0] == origin && path[|path| - 1] == dest &&
    Distinct(path) && OnCatalog(net, path) && Steps(net, path, used) &&
    IsWalk(net.edges, used, origin, dest) && EdgesKnown(net.stations, used)
  }

  /** No walk from `origin` to `dest` has a smaller search score than `used`. */
  ghost predicate Least(net: Network, metric: Metric, opts: Options, origin: Id, dest: Id, used: seq<Edge>)
    requires EdgesKnown(net.stations, used)
  {
    forall w :: IsWalk(net.edges, w, origin, dest) && EdgesKnown(net.stations, w) ==>
      SearchCost(net, metric, opts, used) <= SearchCost(net, metric, opts, w)
  }

  /**
   * With the penalty below minus the transfer bias, a mirrored pair of
   * transfer edges between two stations at the same position (as at
   * Tacubaya and Balderas) is a cycle of negative search score: going round
   * it first makes every walk cheaper, so no walk from the first station is
   * cheapest and the relaxation loop never runs out of improvements.
   */
  lemma NegativePenaltyNoCheapest(net: Network, metric: Metric, opts: Options, a: Id, b: Id, dest: Id, used: seq<Edge>)
    requires net.WellFormed() && a in net.stations && b in net.stations
    requires Edge(a, b, Transfer) in net.edges && Edge(b, a, Transfer) in net.edges
    requires net.stations[a].pos == net.stations[b].pos
    requires opts.transferPenalty < -TransferBias
    requires IsWalk(net.edges, used, a, dest)
    ensures EdgesKnown(net.stations, used)
    ensures !Least(net, metric, opts, a, dest, used)
  {
    WalkKnown(net, used, a, dest);
    var cycle := [Edge(a, b, Transfer), Edge(b, a, Transfer)];
    assert IsWalk(net.edges, cycle, a, a);
    WalkKnown(net, cycle, a, a);
    assert MetricAt(metric, net.stations[a].pos, net.stations[b].pos);
    assert SearchCost(net, metric, opts, cycle) < 0.0 by {
      assert Dist(net, metric, a, b) == 0.0 && Dist(net, metric, b, a) == 0.0;
      assert SearchWeight(net, metric, opts, cycle[0]) < 0.0;
      assert SearchWeight(net, metric, opts, cycle[1]) < 0.0;
      InitKnown(net.stations, cycle);
      InitKnown(net.stations, cycle[..1]);
      assert cycle[..1] == [cycle[0]] && cycle[..1][..0] == [];
      assert SearchCost(net, metric, opts, cycle[..1]) == SearchWeight(net, metric, opts, cycle[0]);
    }
    var w := cycle + used;
    WalkConcat(net.edges, cycle, used, a, a, dest);
    SearchCostAppend(net, metric, opts, cycle, used);
    assert SearchCost(net, metric, opts, w) < SearchCost(net, metric, opts, used);
  }

  /**
   * What a successful answer guarantees: the path follows the edges `used`,
   * the response is the assembly of that path, `used` has the least search
   * score over all walks, and, when no station pair is joined by edges of
   * both kinds, that score is the reported total cost plus the bias once
   * per transfer.
   */
  ghost predicate Answers(net: Network, metric: Metric, opts: Options, origin: Id, dest: Id, res: RouteResult, used: seq<Edge>) {
    Follows(net, origin, dest, res.path, used) &&
    res == Assembled(net, metric, opts, res.path) &&
    Least(net, metric, opts, origin, dest, used) &&
    (Unambiguous(net.edges) ==>
       res.totalCost + TransferSurcharge(opts, res.transfers) == SearchCost(net, metric, opts, used))
  }

  /**
   * a_star: reject unknown ids before any search state exists, search,
   * report no route when the destination was never reached, otherwise
   * reconstruct and assemble. `used` is the chain of edges behind the path.
   */
  method AStar(net: Network, metric: Metric, opts: Options, origin: Id, dest: Id)
    returns (r: Result<RouteResult>, ghost used: seq<Edge>)
    requires origin in net.stations && dest in net.stations ==> net.WellFormed() && opts.transferPenalty >= 0.0
    ensures r == Err(StationNotFound) <==> origin !in net.stations || dest !in net.stations
    ensures r == Err(NoRouteFound) <==>
              origin in net.stations && dest in net.stations && !Reachable(net.edges, origin, dest)
    ensures r.Ok? ==> Answers(net, metric, opts, origin, dest, r.value, used)
    ensures origin == dest && origin in net.stations ==> r == Ok(RouteResult([origin], [], 0.0, 0.0, 0, []))
  {
    used := [];
    if origin !in net.stations || dest !in net.stations {
      return Err(StationNotFound), used;
    }
    var q := Query(net, metric, opts, origin, dest);
    var nb := BuildNeighbors(net, metric, opts);
    var cameFrom, g, tc, via, rank := Explore(q, nb);
    if dest !in cameFrom && dest != origin {
      return Err(NoRouteFound), used;
    }
    Found(q, cameFrom, g, tc, via, rank);
    var path := Reconstruct(cameFrom, origin, dest, rank);
    used := PathWalk(via, path);
    var res := Assemble(net, metric, opts, path);
    if origin == dest {
      AssembledSingle(net, metric, opts, origin);
    }
    r := Ok(res);
  }

  /**
   * compute_route: equal ids short-circuit to a one-station answer (or to
   * StationNotFound when the id is unknown) without reading the edges or the
   * penalty; other requests go to a_star.
   */
  method ComputeRoute(net: Network, metric: Metric, opts: Options, origin: Id, dest: Id)
    returns (r: Result<RouteResult>, ghost used: seq<Edge>)
    requires Keyed(net.stations)
    requires origin != dest && origin in net.stations && dest in net.stations ==>
               net.WellFormed() && opts.transferPenalty >= 0.0
    ensures r == Err(StationNotFound) <==> origin !in net.stations || dest !in net.stations
    ensures r == Err(NoRouteFound) <==>
              origin in net.stations && dest in net.stations && !Reachable(net.edges, origin, dest)
    ensures origin == dest && origin in net.stations ==>
              r == Ok(RouteResult([origin], [], 0.0, 0.0, 0, [net.stations[origin].line]))
    ensures origin != dest && r.Ok? ==> Answers(net, metric, opts, origin, dest, r.value, used)
  {
    if origin == dest {
      used := [];
      var s := if origin in net.stations then Some(net.stations[origin]) else None;
      if s == None {
        return Err(StationNotFound), used;
      }
      assert Reachable(net.edges, origin, dest) by {
        assert IsWalk(net.edges, [], origin, dest);
      }
      return Ok(RouteResult([s.value.id], [], 0.0, 0.0, 0, [s.value.line])), used;
    }
    r, used := AStar(net, metric, opts, origin, dest);
  }
}
