/**
 * Turning the search's predecessor map into a rider's itinerary
 * (main.py, lines 218-266): walk came_from back from the destination and
 * reverse, then price each consecutive pair of stations again and collect
 * the totals, the transfer count and the lines used.
 */
module Itinerary {
  import opened Graph
  import opened Cost

  /** One leg of the itinerary; `line` is None on a transfer. */
  datatype RouteSegment = RouteSegment(fromId: Id, toId: Id, kind: Kind, line: Option<LineId>, distance: real, cost: real)

  /** The response body. Totals are kept unrounded. */
  datatype RouteResult = RouteResult(
    path: seq<Id>,
    segments: seq<RouteSegment>,
    totalDistance: real,
    totalCost: real,
    transfers: nat,
    linesUsed: seq<LineId>)

  // ---------------------------------------------------------------
  // Path reconstruction
  // ---------------------------------------------------------------

  /** Following a predecessor link strictly lowers a node's rank, so the links cannot form a cycle. */
  ghost predicate Descending(cameFrom: map<Id, Id>, rank: map<Id, nat>) {
    forall v {:trigger cameFrom[v]} :: v in cameFrom && v in rank ==> cameFrom[v] in rank && rank[cameFrom[v]] < rank[v]
  }

  function Reversed<T>(s: seq<T>): (r: seq<T>)
    ensures |r| == |s|
    ensures forall i :: 0 <= i < |s| ==> r[i] == s[|s| - 1 - i]
  {
    if s == [] then [] else [s[|s| - 1]] + Reversed(s[..|s| - 1])
  }

  /**
   * The chain of predecessors ending at `v`, listed from its far end: it
   * stops at the origin or at a node without a predecessor.
   */
  function ChainTo(cameFrom: map<Id, Id>, origin: Id, rank: map<Id, nat>, v: Id): (p: seq<Id>)
    requires Descending(cameFrom, rank) && v in rank
    ensures |p| >= 1 && p[|p| - 1] == v
    ensures p[0] == origin || p[0] !in cameFrom
    ensures forall i :: 0 < i < |p| ==> p[i] in cameFrom && cameFrom[p[i]] == p[i - 1] && p[i] != origin
    ensures forall i :: 0 <= i < |p| ==> p[i] in rank
    ensures forall i :: 0 <= i < |p| - 1 ==> rank[p[i]] < rank[p[i + 1]]
    decreases rank[v]
  {
    if v == origin || v !in cameFrom then [v]
    else ChainTo(cameFrom, origin, rank, cameFrom[v]) + [v]
  }

  /** Ranks rise along a chain, so no station appears in it twice. */
  lemma {:induction false} ChainHasNoRepeats(cameFrom: map<Id, Id>, origin: Id, rank: map<Id, nat>, v: Id, i: int, j: int)
    requires Descending(cameFrom, rank) && v in rank
    requires 0 <= i < j < |ChainTo(cameFrom, origin, rank, v)|
    ensures var p := ChainTo(cameFrom, origin, rank, v); rank[p[i]] < rank[p[j]] && p[i] != p[j]
    decreases j - i
  {
    var p := ChainTo(cameFrom, origin, rank, v);
    if i + 1 < j {
      ChainHasNoRepeats(cameFrom, origin, rank, v, i + 1, j);
      assert rank[p[i]] < rank[p[i + 1]];
    }
  }

  /** Reversing puts the last element first. */
  lemma ReversedLast<T>(s: seq<T>)
    requires s != []
    ensures Reversed(s) == [s[|s| - 1]] + Reversed(s[..|s| - 1])
  {
  }

  /** One step of the reconstruction loop: following the predecessor of the last station keeps the chain split. */
  lemma ChainStep(cameFrom: map<Id, Id>, origin: Id, rank: map<Id, nat>, dest: Id, back: seq<Id>)
    requires Descending(cameFrom, rank) && dest in rank
    requires |back| >= 1 && back[|back| - 1] in rank && back[|back| - 1] != origin && back[|back| - 1] in cameFrom
    requires ChainTo(cameFrom, origin, rank, dest)
             == ChainTo(cameFrom, origin, rank, back[|back| - 1]) + Reversed(back[..|back| - 1])
    ensures var last := back[|back| - 1];
            cameFrom[last] in rank && rank[cameFrom[last]] < rank[last] &&
            ChainTo(cameFrom, origin, rank, dest)
            == ChainTo(cameFrom, origin, rank, cameFrom[last]) + Reversed(back)
  {
    var last := back[|back| - 1];
    assert ChainTo(cameFrom, origin, rank, last) == ChainTo(cameFrom, origin, rank, cameFrom[last]) + [last];
    ReversedLast(back);
  }

  /**
   * The reconstruction loop: start from the destination, append the
   * predecessor of the last station until the origin or a station without
   * one is reached, then reverse.
   */
  method Reconstruct(cameFrom: map<Id, Id>, origin: Id, dest: Id, ghost rank: map<Id, nat>) returns (path: seq<Id>)
    requires Descending(cameFrom, rank) && dest in rank
    ensures path == ChainTo(cameFrom, origin, rank, dest)
  {
    var back := [dest];
    while back[|back| - 1] != origin
      invariant |back| >= 1 && back[|back| - 1] in rank
      invariant ChainTo(cameFrom, origin, rank, dest)
                == ChainTo(cameFrom, origin, rank, back[|back| - 1]) + Reversed(back[..|back| - 1])
      decreases rank[back[|back| - 1]]
    {
      var last := back[|back| - 1];
      var prev := if last in cameFrom then Some(cameFrom[last]) else None;
      if prev == None {
        break;
      }
      ChainStep(cameFrom, origin, rank, dest, back);
      back := back + [prev.value];
    }
    ReversedLast(back);
    path := Reversed(back);
  }

  // ---------------------------------------------------------------
  // Pricing one leg again
  // ---------------------------------------------------------------

  /**
   * The kind the assembler gives the leg from `a` to `b`: the kind of a
   * listed a-to-b edge whenever there is one, a transfer when edges of both
   * kinds are listed, and never a transfer that is not listed.
   */
  function SegmentKind(edges: seq<Edge>, a: Id, b: Id): (k: Kind)
    ensures forall k' :: Edge(a, b, k') in edges ==> Edge(a, b, k) in edges
    ensures Edge(a, b, Transfer) in edges ==> k == Transfer
    ensures k == Transfer ==> Edge(a, b, Transfer) in edges
  {
    if Edge(a, b, Transfer) in edges then Transfer
    else
      assert forall k' :: Edge(a, b, k') in edges ==> k' == Line;
      Line
  }

  /** The assembler's own copy of the weight rule, with the surcharges nested under the edge kind. */
  function SegmentCost(net: Network, metric: Metric, opts: Options, a: Id, b: Id, k: Kind): real
    requires a in net.stations && b in net.stations
  {
    var d := Dist(net, metric, a, b);
    if k == Transfer then
      if opts.mobility == Reduced then (d + opts.transferPenalty) * ReducedFactor else d + opts.transferPenalty
    else
      if opts.timeOfDay == Peak && net.stations[a].line in CongestedLines then d * PeakFactor else d
  }

  /** The assembler prices a leg exactly as the search priced the edge, without the search-only bias. */
  lemma SegmentCostIsEdgeCost(net: Network, metric: Metric, opts: Options, a: Id, b: Id, k: Kind)
    requires a in net.stations && b in net.stations
    ensures SegmentCost(net, metric, opts, a, b, k) == EdgeCost(net, metric, opts, Edge(a, b, k))
    ensures SegmentCost(net, metric, opts, a, b, k) == SearchWeight(net, metric, opts, Edge(a, b, k)) - Bias(opts, k)
  {
  }

  function SegmentOf(net: Network, metric: Metric, opts: Options, a: Id, b: Id): RouteSegment
    requires a in net.stations && b in net.stations
  {
    var k := SegmentKind(net.edges, a, b);
    RouteSegment(a, b, k, if k == Transfer then None else Some(net.stations[a].line),
                 Dist(net, metric, a, b), SegmentCost(net, metric, opts, a, b, k))
  }

  predicate OnCatalog(net: Network, path: seq<Id>) {
    forall i :: 0 <= i < |path| ==> path[i] in net.stations
  }

  /** One leg per consecutive pair of the path: zip(path[:-1], path[1:]). */
  function Segments(net: Network, metric: Metric, opts: Options, path: seq<Id>): (segs: seq<RouteSegment>)
    requires OnCatalog(net, path)
    ensures |segs| == if |path| == 0 then 0 else |path| - 1
    ensures forall i :: 0 <= i < |segs| ==> segs[i] == SegmentOf(net, metric, opts, path[i], path[i + 1])
  {
    if |path| < 2 then []
    else
      var n := |path|;
      Segments(net, metric, opts, path[..n - 1]) + [SegmentOf(net, metric, opts, path[n - 2], path[n - 1])]
  }

  // ---------------------------------------------------------------
  // Totals over the legs
  // ---------------------------------------------------------------

  function TotalDistance(segs: seq<RouteSegment>): real {
    if segs == [] then 0.0 else TotalDistance(segs[..|segs| - 1]) + segs[|segs| - 1].distance
  }

  function TotalCost(segs: seq<RouteSegment>): real {
    if segs == [] then 0.0 else TotalCost(segs[..|segs| - 1]) + segs[|segs| - 1].cost
  }

  function TransferCount(segs: seq<RouteSegment>): nat {
    if segs == [] then 0 else TransferCount(segs[..|segs| - 1]) + (if segs[|segs| - 1].kind == Transfer then 1 else 0)
  }

  /** Each total over the legs splits over a concatenation of legs. */
  lemma {:induction false} TotalsAdditive(a: seq<RouteSegment>, b: seq<RouteSegment>)
    ensures TotalDistance(a + b) == TotalDistance(a) + TotalDistance(b)
    ensures TotalCost(a + b) == TotalCost(a) + TotalCost(b)
    ensures TransferCount(a + b) == TransferCount(a) + TransferCount(b)
  {
    if b == [] {
      assert a + b == a;
    } else {
      var init := b[..|b| - 1];
      TotalsAdditive(a, init);
      assert (a + b)[..|a + b| - 1] == a + init;
    }
  }

  /** The indices of the transfer legs. */
  function TransferLegs(segs: seq<RouteSegment>): set<int> {
    set i | 0 <= i < |segs| && segs[i].kind == Transfer
  }

  /** The transfer count is the number of legs typed transfer. */
  lemma {:induction false} TransferCountCountsLegs(segs: seq<RouteSegment>)
    ensures TransferCount(segs) == |TransferLegs(segs)|
  {
    if segs == [] {
      assert TransferLegs(segs) == {};
    } else {
      var n := |segs|;
      var init := segs[..n - 1];
      TransferCountCountsLegs(init);
      var tail := if segs[n - 1].kind == Transfer then {n - 1} else {};
      assert TransferLegs(segs) == TransferLegs(init) + tail by {
        forall i | i in TransferLegs(segs) ensures i in TransferLegs(init) + tail {
          if i < n - 1 {
            assert init[i] == segs[i];
          }
        }
        forall i | i in TransferLegs(init) ensures i in TransferLegs(segs) {
          assert init[i] == segs[i];
        }
      }
      assert n - 1 !in TransferLegs(init);
    }
  }

  /** The leg rides line `x`. */
  predicate UsesLine(s: RouteSegment, x: LineId) {
    s.kind == Line && s.line == Some(x)
  }

  /** The lines of the line legs, each kept at its first appearance. */
  function LinesUsed(segs: seq<RouteSegment>): seq<LineId> {
    if segs == [] then []
    else
      var prev := LinesUsed(segs[..|segs| - 1]);
      var s := segs[|segs| - 1];
      if s.kind == Line && s.line.Some? && s.line.value !in prev then prev + [s.line.value] else prev
  }

  /** A line is listed exactly when some line leg rides it. */
  lemma {:induction false} LinesUsedExactly(segs: seq<RouteSegment>, x: LineId)
    ensures x in LinesUsed(segs) <==> exists k :: 0 <= k < |segs| && UsesLine(segs[k], x)
  {
    if segs != [] {
      var init := segs[..|segs| - 1];
      LinesUsedExactly(init, x);
      if exists k :: 0 <= k < |init| && UsesLine(init[k], x) {
        var k :| 0 <= k < |init| && UsesLine(init[k], x);
        assert segs[k] == init[k];
      }
      if exists k :: 0 <= k < |segs| && UsesLine(segs[k], x) {
        var k :| 0 <= k < |segs| && UsesLine(segs[k], x);
        if k < |init| {
          assert init[k] == segs[k];
        }
      }
    }
  }

  /** No line is listed twice. */
  lemma {:induction false} LinesUsedNoDuplicates(segs: seq<RouteSegment>)
    ensures forall i, j :: 0 <= i < j < |LinesUsed(segs)| ==> LinesUsed(segs)[i] != LinesUsed(segs)[j]
  {
    if segs != [] {
      LinesUsedNoDuplicates(segs[..|segs| - 1]);
    }
  }

  /**
   * First-appearance order: when line L[i] is listed before line L[j],
   * every leg riding L[j] is preceded by a leg riding L[i].
   */
  lemma {:induction false} LinesUsedInFirstAppearanceOrder(segs: seq<RouteSegment>, i: int, j: int, k: int)
    requires 0 <= i < j < |LinesUsed(segs)|
    requires 0 <= k < |segs| && UsesLine(segs[k], LinesUsed(segs)[j])
    ensures exists k' :: 0 <= k' < k && UsesLine(segs[k'], LinesUsed(segs)[i])
  {
    var init := segs[..|segs| - 1];
    var before := LinesUsed(init);
    var lines := LinesUsed(segs);
    assert lines[..|before|] == before;
    LinesUsedExactly(init, lines[i]);
    if k < |init| {
      assert init[k] == segs[k];
      LinesUsedExactly(init, lines[j]);
      assert j < |before|;
      LinesUsedInFirstAppearanceOrder(init, i, j, k);
      var k' :| 0 <= k' < k && UsesLine(init[k'], before[i]);
      assert segs[k'] == init[k'];
    } else {
      var k' :| 0 <= k' < |init| && UsesLine(init[k'], lines[i]);
      assert segs[k'] == init[k'];
    }
  }

  /** Appending one leg adds its distance, its cost, one transfer if it is one, and its line if not yet listed. */
  lemma TotalsAppend(segs: seq<RouteSegment>, s: RouteSegment)
    ensures TotalDistance(segs + [s]) == TotalDistance(segs) + s.distance
    ensures TotalCost(segs + [s]) == TotalCost(segs) + s.cost
    ensures TransferCount(segs + [s]) == TransferCount(segs) + (if s.kind == Transfer then 1 else 0)
    ensures LinesUsed(segs + [s]) ==
            if s.kind == Line && s.line.Some? && s.line.value !in LinesUsed(segs) then LinesUsed(segs) + [s.line.value]
            else LinesUsed(segs)
  {
    assert (segs + [s])[..|segs|] == segs;
  }

  /** The response for `path`, as the assembly loop builds it. */
  function Assembled(net: Network, metric: Metric, opts: Options, path: seq<Id>): RouteResult
    requires OnCatalog(net, path)
  {
    var segs := Segments(net, metric, opts, path);
    RouteResult(path, segs, TotalDistance(segs), TotalCost(segs), TransferCount(segs), LinesUsed(segs))
  }

  /**
   * The assembly loop: price each consecutive pair, accumulating the legs,
   * both totals, the transfer count and the lines used.
   */
  method Assemble(net: Network, metric: Metric, opts: Options, path: seq<Id>) returns (r: RouteResult)
    requires OnCatalog(net, path)
    ensures r == Assembled(net, metric, opts, path)
  {
    var segments: seq<RouteSegment> := [];
    var totalDistance := 0.0;
    var totalCost := 0.0;
    var transfers: nat := 0;
    var linesUsed: seq<LineId> := [];
    var n := if |path| == 0 then 0 else |path| - 1;
    for k := 0 to n
      invariant |segments| == k
      invariant forall i :: 0 <= i < k ==> segments[i] == SegmentOf(net, metric, opts, path[i], path[i + 1])
      invariant totalDistance == TotalDistance(segments) && totalCost == TotalCost(segments)
      invariant transfers == TransferCount(segments) && linesUsed == LinesUsed(segments)
    {
      var a, b := path[k], path[k + 1];
      var kind := Line;
      var line := Some(net.stations[a].line);
      if Edge(a, b, Transfer) in net.edges {
        kind := Transfer;
        line := None;
      }
      var d := metric(net.stations[a].pos, net.stations[b].pos);
      var cost := d;
      if kind == Transfer {
        cost := cost + opts.transferPenalty;
        if opts.mobility == Reduced {
          cost := cost * ReducedFactor;
        }
        transfers := transfers + 1;
      } else {
        if opts.timeOfDay == Peak && net.stations[a].line in CongestedLines {
          cost := cost * PeakFactor;
        }
        if line.value !in linesUsed {
          linesUsed := linesUsed + [line.value];
        }
      }
      var seg := RouteSegment(a, b, kind, line, d, cost);
      assert kind == SegmentKind(net.edges, a, b);
      assert seg == SegmentOf(net, metric, opts, a, b);
      TotalsAppend(segments, seg);
      segments := segments + [seg];
      totalDistance := totalDistance + d;
      totalCost := totalCost + cost;
    }
    ghost var expected := Segments(net, metric, opts, path);
    assert |segments| == |expected|;
    forall i | 0 <= i < |segments| ensures segments[i] == expected[i] {
      assert segments[i] == SegmentOf(net, metric, opts, path[i], path[i + 1]);
      assert expected[i] == SegmentOf(net, metric, opts, path[i], path[i + 1]);
    }
    assert segments == expected;
    r := RouteResult(path, segments, totalDistance, totalCost, transfers, linesUsed);
  }
}
