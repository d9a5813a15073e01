/**
 * The edge-cost rule, the search-only transfer bias and the straight-line
 * heuristic (main.py, lines 124-131, 164-183, 191, 203-211).
 */
module Cost {
  import opened Graph

  /**
   * What the router needs of math.hypot: a distance that is non-negative,
   * symmetric, zero from a point to itself and obeys the triangle inequality.
   */
  ghost predicate IsMetric(d: (Point, Point) -> real) {
    (forall p, q :: MetricAt(d, p, q)) && (forall p, q, r :: TriangleAt(d, p, q, r))
  }

  /** Non-negative, symmetric and zero from a point to itself, at one pair of points. */
  ghost predicate MetricAt(d: (Point, Point) -> real, p: Point, q: Point) {
    d(p, q) >= 0.0 && d(p, q) == d(q, p) && d(p, p) == 0.0
  }

  /** The triangle inequality at one triple of points. */
  ghost predicate TriangleAt(d: (Point, Point) -> real, p: Point, q: Point, r: Point) {
    d(p, r) <= d(p, q) + d(q, r)
  }

  type Metric = d: (Point, Point) -> real | IsMetric(d) witness (p: Point, q: Point) => 0.0

  /** Any mobility string other than "reduced" behaves as Normal. */
  datatype Mobility = Normal | Reduced

  /** Any time-of-day string other than "peak" behaves as OffPeak. */
  datatype TimeOfDay = OffPeak | Peak

  datatype Options = Options(transferPenalty: real, mobility: Mobility, timeOfDay: TimeOfDay, preferFewerTransfers: bool)

  /** The request defaults: penalty 5.0, normal mobility, off-peak, no transfer preference. */
  const DefaultOptions := Options(5.0, Normal, OffPeak, false)

  const PeakFactor: real := 1.15
  const ReducedFactor: real := 1.5
  const TransferBias: real := 0.5
  const CongestedLines: set<LineId> := {"3", "9"}

  /** dist(a, b) on two catalogued stations. */
  function Dist(net: Network, metric: Metric, u: Id, v: Id): (d: real)
    requires u in net.stations && v in net.stations
    ensures d >= 0.0 && d == metric(net.stations[v].pos, net.stations[u].pos)
    ensures u == v ==> d == 0.0
  {
    assert MetricAt(metric, net.stations[u].pos, net.stations[v].pos);
    metric(net.stations[u].pos, net.stations[v].pos)
  }

  /**
   * The step cost a_star stores for an edge: the base distance, plus the
   * penalty on a transfer; a transfer costs half as much again for reduced
   * mobility, and a line edge leaving a station of a congested line costs
   * 15% more at peak.
   */
  function EdgeCost(net: Network, metric: Metric, opts: Options, e: Edge): (c: real)
    requires e.from in net.stations && e.to in net.stations
    ensures opts.transferPenalty >= 0.0 ==> c >= Dist(net, metric, e.from, e.to)
  {
    var base := Dist(net, metric, e.from, e.to);
    var withPenalty := if e.kind == Transfer then base + opts.transferPenalty else base;
    var withMobility := if opts.mobility == Reduced && e.kind == Transfer then withPenalty * ReducedFactor else withPenalty;
    if opts.timeOfDay == Peak && e.kind == Line && net.stations[e.from].line in CongestedLines
    then withMobility * PeakFactor
    else withMobility
  }

  /** The search-only surcharge on transfers when fewer transfers are preferred. */
  function Bias(opts: Options, k: Kind): real {
    if opts.preferFewerTransfers && k == Transfer then TransferBias else 0.0
  }

  /** What relaxing an edge adds to the tentative score. */
  function SearchWeight(net: Network, metric: Metric, opts: Options, e: Edge): (w: real)
    requires e.from in net.stations && e.to in net.stations
    ensures opts.transferPenalty >= 0.0 ==> w >= Dist(net, metric, e.from, e.to)
  {
    EdgeCost(net, metric, opts, e) + Bias(opts, e.kind)
  }

  /** h(v): straight-line distance from v to the goal. */
  function Heuristic(net: Network, metric: Metric, goal: Id, v: Id): real
    requires goal in net.stations && v in net.stations
  {
    Dist(net, metric, v, goal)
  }

  /** The heuristic is consistent: it never drops by more than the weight of the edge crossed. */
  lemma Consistent(net: Network, metric: Metric, opts: Options, goal: Id, e: Edge)
    requires opts.transferPenalty >= 0.0
    requires goal in net.stations && e.from in net.stations && e.to in net.stations
    ensures Heuristic(net, metric, goal, e.from) <= SearchWeight(net, metric, opts, e) + Heuristic(net, metric, goal, e.to)
  {
    var p, q, r := net.stations[e.from].pos, net.stations[e.to].pos, net.stations[goal].pos;
    assert TriangleAt(metric, p, q, r);
  }

  /** Reduced mobility adds half of (distance + penalty) to a transfer and nothing to a line edge. */
  lemma ReducedMobilitySurcharge(net: Network, metric: Metric, opts: Options, e: Edge)
    requires e.from in net.stations && e.to in net.stations
    ensures EdgeCost(net, metric, opts.(mobility := Reduced), e) - EdgeCost(net, metric, opts.(mobility := Normal), e)
            == if e.kind == Transfer then 0.5 * (Dist(net, metric, e.from, e.to) + opts.transferPenalty) else 0.0
  {
  }

  /** At peak a line edge from line 3 or 9 costs exactly 1.15 times its off-peak cost; nothing else changes. */
  /**
   * Under the request defaults a line edge costs its distance, a transfer
   * its distance plus 5.0, and the search adds no bias.
   */
  lemma DefaultWeights(net: Network, metric: Metric, e: Edge)
    requires e.from in net.stations && e.to in net.stations
    ensures EdgeCost(net, metric, DefaultOptions, e)
            == Dist(net, metric, e.from, e.to) + (if e.kind == Transfer then 5.0 else 0.0)
    ensures SearchWeight(net, metric, DefaultOptions, e) == EdgeCost(net, metric, DefaultOptions, e)
  {
  }

  lemma PeakSurcharge(net: Network, metric: Metric, opts: Options, e: Edge)
    requires e.from in net.stations && e.to in net.stations
    ensures EdgeCost(net, metric, opts.(timeOfDay := Peak), e)
            == if e.kind == Line && net.stations[e.from].line in {"3", "9"}
               then 1.15 * EdgeCost(net, metric, opts.(timeOfDay := OffPeak), e)
               else EdgeCost(net, metric, opts.(timeOfDay := OffPeak), e)
  {
  }

  // ---------------------------------------------------------------
  // Costs along a chain of edges
  // ---------------------------------------------------------------

  /** The score the search accumulates along `w`: step costs plus transfer bias. */
  function SearchCost(net: Network, metric: Metric, opts: Options, w: seq<Edge>): real
    requires EdgesKnown(net.stations, w)
  {
    if w == [] then 0.0
    else SearchCost(net, metric, opts, w[..|w| - 1]) + SearchWeight(net, metric, opts, w[|w| - 1])
  }

  /** The cost reported to the rider along `w`: step costs only. */
  function ReportedCost(net: Network, metric: Metric, opts: Options, w: seq<Edge>): real
    requires EdgesKnown(net.stations, w)
  {
    if w == [] then 0.0
    else ReportedCost(net, metric, opts, w[..|w| - 1]) + EdgeCost(net, metric, opts, w[|w| - 1])
  }

  function TransfersOn(w: seq<Edge>): nat {
    if w == [] then 0
    else TransfersOn(w[..|w| - 1]) + (if w[|w| - 1].kind == Transfer then 1 else 0)
  }

  /** The bias the search adds over `n` transfers. */
  function TransferSurcharge(opts: Options, n: nat): real {
    if opts.preferFewerTransfers then TransferBias * (n as real) else 0.0
  }

  /** Dropping the last edge keeps every endpoint known. */
  lemma InitKnown(cat: Catalog, w: seq<Edge>)
    requires EdgesKnown(cat, w) && w != []
    ensures EdgesKnown(cat, w[..|w| - 1])
  {
    var init := w[..|w| - 1];
    forall i | 0 <= i < |init| ensures init[i].from in cat && init[i].to in cat {
      assert init[i] == w[i];
    }
  }

  /** The search score of a chain is its reported cost plus the bias once per transfer. */
  lemma {:induction false} SearchCostSplits(net: Network, metric: Metric, opts: Options, w: seq<Edge>)
    requires EdgesKnown(net.stations, w)
    ensures SearchCost(net, metric, opts, w)
            == ReportedCost(net, metric, opts, w) + TransferSurcharge(opts, TransfersOn(w))
  {
    if w != [] {
      var init := w[..|w| - 1];
      InitKnown(net.stations, w);
      SearchCostSplits(net, metric, opts, init);
    }
  }

  /** The search score of a chain is the sum of the scores of its two parts. */
  lemma {:induction false} SearchCostAppend(net: Network, metric: Metric, opts: Options, a: seq<Edge>, b: seq<Edge>)
    requires EdgesKnown(net.stations, a) && EdgesKnown(net.stations, b)
    ensures EdgesKnown(net.stations, a + b)
    ensures SearchCost(net, metric, opts, a + b) == SearchCost(net, metric, opts, a) + SearchCost(net, metric, opts, b)
  {
    KnownAppend(net.stations, a, b);
    if b == [] {
      assert a + b == a;
    } else {
      var init := b[..|b| - 1];
      InitKnown(net.stations, b);
      SearchCostAppend(net, metric, opts, a, init);
      assert (a + b)[..|a + b| - 1] == a + init;
    }
  }

  /** With a non-negative penalty every chain has a non-negative search score. */
  lemma {:induction false} SearchCostNonNegative(net: Network, metric: Metric, opts: Options, w: seq<Edge>)
    requires opts.transferPenalty >= 0.0
    requires EdgesKnown(net.stations, w)
    ensures SearchCost(net, metric, opts, w) >= 0.0
  {
    if w != [] {
      var init := w[..|w| - 1];
      InitKnown(net.stations, w);
      SearchCostNonNegative(net, metric, opts, init);
    }
  }

  /** The edges of a walk over a well-formed network all join catalogued stations. */
  lemma WalkKnown(net: Network, w: seq<Edge>, x: Id, y: Id)
    requires net.WellFormed() && IsWalk(net.edges, w, x, y)
    ensures EdgesKnown(net.stations, w)
  {
    forall i | 0 <= i < |w| ensures w[i].from in net.stations && w[i].to in net.stations {
      assert w[i] in net.edges;
    }
  }
}
