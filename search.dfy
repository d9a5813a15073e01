/**
 * The A* search of a_star (main.py, lines 162-213): the per-request
 * neighbour map, the frontier loop with (f-score, transfers) selection, and
 * edge relaxation.
 *
 * The proof follows the classical argument for a consistent heuristic: a
 * node removed from the frontier ("closed", a ghost set) is never improved
 * again, so every iteration closes a new station (termination), the
 * predecessor of a node was closed before it (the predecessor chain has no
 * cycle), and the destination's g-score when it is selected is the least
 * search score over all walks (optimality).
 */
module Search {
  import opened Graph
  import opened Cost

  /** One entry of the neighbours map: (v, cost, type, line). */
  datatype Arc = Arc(to: Id, cost: real, kind: Kind, line: Option<LineId>)

  /** The fixed inputs of one search. */
  datatype Query = Query(net: Network, metric: Metric, opts: Options, origin: Id, dest: Id)
  {
    /** What a_star relies on: known endpoints everywhere, a non-negative penalty, known origin and destination. */
    predicate Valid() {
      net.WellFormed() && opts.transferPenalty >= 0.0 && origin in net.stations && dest in net.stations
    }

    function W(e: Edge): real
      requires e.from in net.stations && e.to in net.stations
    {
      SearchWeight(net, metric, opts, e)
    }

    function H(v: Id): real
      requires dest in net.stations && v in net.stations
    {
      Heuristic(net, metric, dest, v)
    }
  }

  function ArcOf(net: Network, metric: Metric, opts: Options, e: Edge): Arc
    requires e.from in net.stations && e.to in net.stations
  {
    Arc(e.to, EdgeCost(net, metric, opts, e), e.kind, if e.kind == Transfer then None else Some(net.stations[e.from].line))
  }

  /** The arcs leaving `u`, in edge-list order. */
  function Adj(net: Network, metric: Metric, opts: Options, es: seq<Edge>, u: Id): (arcs: seq<Arc>)
    requires EdgesKnown(net.stations, es)
    ensures forall k :: 0 <= k < |arcs| ==> arcs[k].to in net.stations
  {
    if es == [] then []
    else
      var e := es[|es| - 1];
      Adj(net, metric, opts, es[..|es| - 1], u) + (if e.from == u then [ArcOf(net, metric, opts, e)] else [])
  }

  /** neighbors.get(u, []) */
  function Neighbors(nb: map<Id, seq<Arc>>, u: Id): seq<Arc> {
    if u in nb then nb[u] else []
  }

  /** Every arc leaving `u` stands for a listed edge from `u`, priced by the edge-cost rule. */
  lemma {:induction false} AdjSound(net: Network, metric: Metric, opts: Options, es: seq<Edge>, u: Id, k: int)
    requires EdgesKnown(net.stations, es)
    requires 0 <= k < |Adj(net, metric, opts, es, u)|
    ensures var a := Adj(net, metric, opts, es, u)[k];
            Edge(u, a.to, a.kind) in es && a == ArcOf(net, metric, opts, Edge(u, a.to, a.kind))
  {
    var init := es[..|es| - 1];
    var e := es[|es| - 1];
    var before := Adj(net, metric, opts, init, u);
    if k < |before| {
      AdjSound(net, metric, opts, init, u, k);
      var a := before[k];
      assert Edge(u, a.to, a.kind) in init;
    } else {
      assert e.from == u;
      assert Edge(u, e.to, e.kind) == e;
    }
  }

  /** Every listed edge from `u` appears among the arcs leaving `u`. */
  lemma {:induction false} AdjComplete(net: Network, metric: Metric, opts: Options, es: seq<Edge>, u: Id, i: int)
    requires EdgesKnown(net.stations, es)
    requires 0 <= i < |es| && es[i].from == u
    ensures ArcOf(net, metric, opts, es[i]) in Adj(net, metric, opts, es, u)
  {
    var init := es[..|es| - 1];
    if i < |es| - 1 {
      assert init[i] == es[i];
      AdjComplete(net, metric, opts, init, u, i);
    }
  }

  /** One more edge of the list adds its arc at the end of its source's arcs and changes no other station's. */
  lemma AdjExtend(net: Network, metric: Metric, opts: Options, es: seq<Edge>, i: int)
    requires EdgesKnown(net.stations, es) && 0 <= i < |es|
    ensures EdgesKnown(net.stations, es[..i]) && EdgesKnown(net.stations, es[..i + 1])
    ensures forall u :: Adj(net, metric, opts, es[..i + 1], u) ==
                        Adj(net, metric, opts, es[..i], u) + (if es[i].from == u then [ArcOf(net, metric, opts, es[i])] else [])
  {
    assert es[..i + 1][..i] == es[..i];
  }

  /** The loop that fills the neighbours map, computing each edge's cost in place. */
  method BuildNeighbors(net: Network, metric: Metric, opts: Options) returns (nb: map<Id, seq<Arc>>)
    requires net.WellFormed()
    ensures forall u :: Neighbors(nb, u) == Adj(net, metric, opts, net.edges, u)
  {
    nb := map[];
    for i := 0 to |net.edges|
      invariant forall u :: Neighbors(nb, u) == Adj(net, metric, opts, net.edges[..i], u)
    {
      var e := net.edges[i];
      var su, sv := net.stations[e.from], net.stations[e.to];
      var base := metric(su.pos, sv.pos);
      var cost := base;
      var line: Option<LineId> := None;
      if e.kind == Transfer {
        cost := cost + opts.transferPenalty;
      } else {
        line := Some(su.line);
      }
      if opts.mobility == Reduced && e.kind == Transfer {
        cost := cost * ReducedFactor;
      }
      if opts.timeOfDay == Peak && e.kind == Line && su.line in CongestedLines {
        cost := cost * PeakFactor;
      }
      assert Arc(e.to, cost, e.kind, line) == ArcOf(net, metric, opts, e);
      AdjExtend(net, metric, opts, net.edges, i);
      ghost var before := nb;
      nb := nb[e.from := Neighbors(nb, e.from) + [Arc(e.to, cost, e.kind, line)]];
      forall u ensures Neighbors(nb, u) == Adj(net, metric, opts, net.edges[..i + 1], u) {
        assert Neighbors(before, u) == Adj(net, metric, opts, net.edges[..i], u);
      }
    }
    assert net.edges[..|net.edges|] == net.edges;
  }

  // ---------------------------------------------------------------
  // Search state and its invariant
  // ---------------------------------------------------------------

  /** The per-request scratch state: open_set, came_from, g_score, f_score, transfers_count. An absent score is infinity. */
  datatype Scratch = Scratch(
    openSet: set<Id>,
    cameFrom: map<Id, Id>,
    gScore: map<Id, real>,
    fScore: map<Id, real>,
    transfersCount: map<Id, nat>)

  /** Domains, the origin's score, and f = g + h. */
  ghost predicate Shape(q: Query, st: Scratch, closed: set<Id>)
    requires q.Valid()
  {
    st.openSet <= st.gScore.Keys && closed <= st.gScore.Keys && st.gScore.Keys <= q.net.stations.Keys &&
    st.openSet !! closed && q.dest !in closed &&
    (forall v :: v in st.gScore ==> v in st.openSet || v in closed) &&
    st.fScore.Keys == st.gScore.Keys && st.transfersCount.Keys == q.net.stations.Keys &&
    q.origin in st.gScore && st.gScore[q.origin] == 0.0 &&
    st.cameFrom.Keys == st.gScore.Keys - {q.origin} &&
    (forall v :: v in st.gScore ==> st.gScore[v] >= 0.0 && st.fScore[v] == st.gScore[v] + q.H(v))
  }

  /**
   * Each predecessor link follows a listed edge whose search weight the
   * child's g-score covers.
   */
  ghost predicate Links(q: Query, cameFrom: map<Id, Id>, g: map<Id, real>, via: map<Id, Edge>)
    requires q.Valid()
  {
    via.Keys == cameFrom.Keys &&
    forall v {:trigger via[v]} :: v in cameFrom ==>
      v in g && cameFrom[v] in g &&
      via[v] in q.net.edges && via[v].from == cameFrom[v] && via[v].to == v &&
      g[v] >= g[cameFrom[v]] + q.W(via[v])
  }

  /** Closed nodes are numbered in closing order; every predecessor is closed, and before its child if that is closed too. */
  ghost predicate Ranked(cameFrom: map<Id, Id>, closed: set<Id>, order: map<Id, nat>) {
    order.Keys == closed && (forall c :: c in closed ==> order[c] < |closed|) &&
    forall v {:trigger cameFrom[v]} :: v in cameFrom ==>
      cameFrom[v] in closed && (v in closed ==> order[cameFrom[v]] < order[v])
  }

  /** Closed nodes lie at or below `bound`, the f-score of the last node selected; open nodes at or above it. */
  ghost predicate Layered(q: Query, st: Scratch, closed: set<Id>, bound: real)
    requires q.Valid() && Shape(q, st, closed)
  {
    (forall o :: o in st.openSet ==> st.fScore[o] >= bound) &&
    (forall c :: c in closed ==> st.fScore[c] <= bound)
  }

  /**
   * The tie-break count is the number of transfers along the predecessor
   * links: 0 at the origin, and one more than the predecessor's across a
   * transfer link.
   */
  ghost predicate Counted(q: Query, cameFrom: map<Id, Id>, tc: map<Id, nat>, via: map<Id, Edge>) {
    q.origin in tc && tc[q.origin] == 0 && cameFrom.Keys <= via.Keys &&
    forall v {:trigger via[v]} :: v in cameFrom ==>
      v in tc && cameFrom[v] in tc &&
      tc[v] == tc[cameFrom[v]] + (if via[v].kind == Transfer then 1 else 0)
  }

  ghost predicate Inv(q: Query, st: Scratch, closed: set<Id>, order: map<Id, nat>, via: map<Id, Edge>, bound: real) {
    q.Valid() && Shape(q, st, closed) && Links(q, st.cameFrom, st.gScore, via) &&
    Ranked(st.cameFrom, closed, order) && Layered(q, st, closed, bound)
  }

  /** The edge `e` has been relaxed: its target's g-score is within e's weight of its source's. */
  ghost predicate Relaxed(q: Query, st: Scratch, e: Edge) {
    e.from in q.net.stations && e.to in q.net.stations &&
    e.from in st.gScore && e.to in st.gScore && st.gScore[e.to] <= st.gScore[e.from] + q.W(e)
  }

  /** Every edge leaving a node of `done` has been relaxed. */
  ghost predicate AllRelaxed(q: Query, st: Scratch, done: set<Id>) {
    forall i :: 0 <= i < |q.net.edges| && q.net.edges[i].from in done ==> Relaxed(q, st, q.net.edges[i])
  }

  predicate IsLexMin(s: set<Id>, f: map<Id, real>, tc: map<Id, nat>, x: Id)
    requires s <= f.Keys && s <= tc.Keys
  {
    x in s && forall n :: n in s ==> f[x] < f[n] || (f[x] == f[n] && tc[x] <= tc[n])
  }

  /** min(open_set, key=(f_score, transfers_count)) exists for a nonempty finite frontier. */
  lemma {:induction false} LexMinExists(s: set<Id>, f: map<Id, real>, tc: map<Id, nat>)
    requires s != {} && s <= f.Keys && s <= tc.Keys
    ensures exists x :: IsLexMin(s, f, tc, x)
    decreases |s|
  {
    var y :| y in s;
    if s == {y} {
      assert IsLexMin(s, f, tc, y);
    } else {
      var rest := s - {y};
      LexMinExists(rest, f, tc);
      var x :| IsLexMin(rest, f, tc, x);
      if f[y] < f[x] || (f[y] == f[x] && tc[y] <= tc[x]) {
        assert IsLexMin(s, f, tc, y);
      } else {
        assert IsLexMin(s, f, tc, x);
      }
    }
  }

  // ---------------------------------------------------------------
  // Facts behind selection and relaxation
  // ---------------------------------------------------------------

  /** A closed node is never improved by relaxing an edge out of the node selected last. */
  lemma NoReopen(q: Query, st: Scratch, closed: set<Id>, order: map<Id, nat>, via: map<Id, Edge>, bound: real, e: Edge)
    requires Inv(q, st, closed, order, via, bound)
    requires e in q.net.edges && e.from in closed && st.fScore[e.from] == bound
    ensures e.to in q.net.stations
    ensures e.to in closed ==> st.gScore[e.from] + q.W(e) >= st.gScore[e.to]
  {
    Consistent(q.net, q.metric, q.opts, q.dest, e);
  }

  lemma SelectShape(q: Query, st: Scratch, closed: set<Id>, u: Id)
    requires q.Valid() && Shape(q, st, closed)
    requires u in st.openSet && u != q.dest
    ensures Shape(q, st.(openSet := st.openSet - {u}), closed + {u})
  {
  }

  /** Closing a node that is not yet closed gives it the next number; every link stays order-decreasing. */
  lemma SelectRanked(cameFrom: map<Id, Id>, closed: set<Id>, order: map<Id, nat>, u: Id)
    requires Ranked(cameFrom, closed, order) && u !in closed
    ensures Ranked(cameFrom, closed + {u}, order[u := |closed|])
  {
    assert |closed + {u}| == |closed| + 1;
  }

  lemma SelectLayered(q: Query, st: Scratch, closed: set<Id>, bound: real, u: Id)
    requires q.Valid() && Shape(q, st, closed) && Layered(q, st, closed, bound)
    requires u in st.openSet && u != q.dest
    requires forall n :: n in st.openSet ==> st.fScore[u] <= st.fScore[n]
    ensures Shape(q, st.(openSet := st.openSet - {u}), closed + {u})
    ensures Layered(q, st.(openSet := st.openSet - {u}), closed + {u}, st.fScore[u])
  {
    SelectShape(q, st, closed, u);
  }

  /** Selecting the frontier node of least f-score and closing it keeps the invariant. */
  lemma SelectKeeps(q: Query, st: Scratch, closed: set<Id>, order: map<Id, nat>, via: map<Id, Edge>, bound: real, u: Id)
    requires Inv(q, st, closed, order, via, bound)
    requires u != q.dest && IsLexMin(st.openSet, st.fScore, st.transfersCount, u)
    ensures u in q.net.stations && u !in closed
    ensures Inv(q, st.(openSet := st.openSet - {u}), closed + {u}, order[u := |closed|], via, st.fScore[u])
  {
    SelectShape(q, st, closed, u);
    SelectRanked(st.cameFrom, closed, order, u);
    SelectLayered(q, st, closed, bound, u);
  }

  /** The state after an improving update of `v` reached from `current` with score `t`. */
  function Improve(st: Scratch, current: Id, v: Id, t: real, hv: real, isTransfer: bool): Scratch
    requires current in st.transfersCount
  {
    Scratch(
      st.openSet + {v},
      st.cameFrom[v := current],
      st.gScore[v := t],
      st.fScore[v := t + hv],
      st.transfersCount[v := st.transfersCount[current] + (if isTransfer then 1 else 0)])
  }

  lemma ImproveShape(q: Query, st: Scratch, closed: set<Id>, e: Edge, t: real)
    requires q.Valid() && Shape(q, st, closed)
    requires e in q.net.edges && e.from in closed && e.to !in closed && e.to != q.origin && t >= 0.0
    ensures e.to in q.net.stations && e.from in st.transfersCount
    ensures Shape(q, Improve(st, e.from, e.to, t, q.H(e.to), e.kind == Transfer), closed)
  {
  }

  /** Re-pointing a node at a scored predecessor through edge `e`, with the score that edge gives, keeps every link covered. */
  lemma ImproveLinks(q: Query, cameFrom: map<Id, Id>, g: map<Id, real>, via: map<Id, Edge>, e: Edge, t: real)
    requires q.Valid() && Links(q, cameFrom, g, via)
    requires e in q.net.edges && e.from in g && e.from != e.to && !(exists v :: v in cameFrom && cameFrom[v] == e.to)
    requires e.from in q.net.stations && e.to in q.net.stations
    requires t == g[e.from] + q.W(e)
    ensures Links(q, cameFrom[e.to := e.from], g[e.to := t], via[e.to := e])
  {
    var cameFrom', g', via' := cameFrom[e.to := e.from], g[e.to := t], via[e.to := e];
    forall v | v in cameFrom'
      ensures g'[v] >= g'[cameFrom'[v]] + q.W(via'[v])
    {
      if v != e.to {
        var link := via[v];  // names the term that triggers the link condition at v
        assert cameFrom'[v] == cameFrom[v] != e.to;
      }
    }
  }

  /** Re-pointing a node that is nobody's predecessor keeps every transfer count equal to its predecessor's plus the link's. */
  lemma ImproveCounted(q: Query, st: Scratch, via: map<Id, Edge>, e: Edge, t: real, hv: real)
    requires Counted(q, st.cameFrom, st.transfersCount, via)
    requires e.from in st.transfersCount && e.from != e.to && e.to != q.origin
    requires !(exists v :: v in st.cameFrom && st.cameFrom[v] == e.to)
    ensures var st' := Improve(st, e.from, e.to, t, hv, e.kind == Transfer);
            Counted(q, st'.cameFrom, st'.transfersCount, via[e.to := e])
  {
    var cameFrom, tc := st.cameFrom, st.transfersCount;
    var st' := Improve(st, e.from, e.to, t, hv, e.kind == Transfer);
    var cameFrom', tc', via' := st'.cameFrom, st'.transfersCount, via[e.to := e];
    forall v | v in cameFrom'
      ensures v in tc' && cameFrom'[v] in tc' &&
              tc'[v] == tc'[cameFrom'[v]] + (if via'[v].kind == Transfer then 1 else 0)
    {
      if v != e.to {
        var link := via[v];  // names the term that triggers the count condition at v
        assert cameFrom'[v] == cameFrom[v] != e.to;
      }
    }
  }

  /** Pointing an open node at a closed predecessor keeps the numbering valid. */
  lemma ImproveRanked(cameFrom: map<Id, Id>, closed: set<Id>, order: map<Id, nat>, u: Id, v: Id)
    requires Ranked(cameFrom, closed, order) && u in closed && v !in closed
    ensures Ranked(cameFrom[v := u], closed, order)
    ensures !(exists x :: x in cameFrom && cameFrom[x] == v)
  {
  }

  lemma ImproveLayered(q: Query, st: Scratch, closed: set<Id>, bound: real, e: Edge, t: real)
    requires q.Valid() && Shape(q, st, closed) && Layered(q, st, closed, bound)
    requires e in q.net.edges && e.from in closed && e.to !in closed && e.to != q.origin && t >= 0.0
    requires e.from in q.net.stations && e.to in q.net.stations
    requires t + q.H(e.to) >= bound
    ensures Shape(q, Improve(st, e.from, e.to, t, q.H(e.to), e.kind == Transfer), closed)
    ensures Layered(q, Improve(st, e.from, e.to, t, q.H(e.to), e.kind == Transfer), closed, bound)
  {
    ImproveShape(q, st, closed, e, t);
  }

  /** An edge relaxed out of a closed node stays relaxed when no closed score changes and no score rises. */
  lemma RelaxedKept(q: Query, st: Scratch, st': Scratch, closed: set<Id>, e: Edge)
    requires Relaxed(q, st, e) && e.from in closed
    requires closed <= st.gScore.Keys && Progress(st, st', closed)
    ensures Relaxed(q, st', e)
  {
  }

  /** Scores only appear, only fall, and stay fixed on closed nodes. */
  ghost predicate Progress(st: Scratch, st': Scratch, closed: set<Id>) {
    st.gScore.Keys <= st'.gScore.Keys &&
    (forall v :: v in st.gScore ==> st'.gScore[v] <= st.gScore[v]) &&
    (forall c :: c in closed && c in st.gScore ==> st'.gScore[c] == st.gScore[c])
  }

  /**
   * The state after relaxing the arc `a` out of `current`: the improving
   * update when the tentative score beats the target's (an absent score is
   * infinity), otherwise the state unchanged.
   */
  function Relax(q: Query, current: Id, a: Arc, st: Scratch): Scratch
    requires q.dest in q.net.stations && a.to in q.net.stations
    requires current in st.gScore && current in st.transfersCount
  {
    var t := st.gScore[current] + a.cost + Bias(q.opts, a.kind);
    if a.to !in st.gScore || t < st.gScore[a.to] then Improve(st, current, a.to, t, q.H(a.to), a.kind == Transfer)
    else st
  }

  /** Relaxing with tentative score `t` is the improving update exactly when `t` beats the target's score. */
  lemma RelaxUnfold(q: Query, current: Id, a: Arc, st: Scratch, t: real)
    requires q.dest in q.net.stations && a.to in q.net.stations
    requires current in st.gScore && current in st.transfersCount
    requires t == st.gScore[current] + a.cost + Bias(q.opts, a.kind)
    ensures Relax(q, current, a, st) ==
            if a.to !in st.gScore || t < st.gScore[a.to] then Improve(st, current, a.to, t, q.H(a.to), a.kind == Transfer) else st
  {
  }

  /** The state after relaxing `arcs[k..]` one after another, in order. */
  function RelaxFrom(q: Query, current: Id, arcs: seq<Arc>, k: nat, st: Scratch): (st': Scratch)
    requires q.dest in q.net.stations && current in st.gScore && current in st.transfersCount
    requires forall j :: 0 <= j < |arcs| ==> arcs[j].to in q.net.stations
    requires k <= |arcs|
    ensures current in st'.gScore && current in st'.transfersCount
    decreases |arcs| - k
  {
    if k == |arcs| then st
    else RelaxFrom(q, current, arcs, k + 1, Relax(q, current, arcs[k], st))
  }

  /**
   * One pass of the inner loop of a_star: relax the arc to `a.to`, and when
   * the tentative score is strictly lower record `current` as its
   * predecessor, lower its g- and f-scores, update its transfer count and
   * (re)open it.
   */
  method RelaxOne(q: Query, current: Id, a: Arc, st: Scratch,
                  ghost closed: set<Id>, ghost order: map<Id, nat>, ghost via: map<Id, Edge>, ghost bound: real)
    returns (st': Scratch, ghost via': map<Id, Edge>)
    requires Inv(q, st, closed, order, via, bound) && Counted(q, st.cameFrom, st.transfersCount, via)
    requires current in closed && st.fScore[current] == bound
    requires Edge(current, a.to, a.kind) in q.net.edges
    requires a == ArcOf(q.net, q.metric, q.opts, Edge(current, a.to, a.kind))
    ensures st' == Relax(q, current, a, st)
    ensures Inv(q, st', closed, order, via', bound) && Counted(q, st'.cameFrom, st'.transfersCount, via')
    ensures Relaxed(q, st', Edge(current, a.to, a.kind))
    ensures Progress(st, st', closed)
  {
    ghost var e := Edge(current, a.to, a.kind);
    var tentative := st.gScore[current] + a.cost;
    if q.opts.preferFewerTransfers && a.kind == Transfer {
      tentative := tentative + TransferBias;
    }
    RelaxUnfold(q, current, a, st, tentative);
    assert tentative == st.gScore[current] + q.W(e);
    st', via' := st, via;
    if a.to !in st.gScore || tentative < st.gScore[a.to] {
      st' := Improve(st, current, a.to, tentative, q.H(a.to), a.kind == Transfer);
      via' := via[a.to := e];
      ImproveKeeps(q, st, closed, order, via, bound, e, tentative);
      ImproveTarget(q, st, closed, order, via, bound, e, tentative);
      ImproveCounted(q, st, via, e, tentative, q.H(a.to));
    }
  }

  /**
   * The target of an improving relaxation out of the node selected last is
   * an open or unscored station other than the origin, and no node has it
   * as predecessor.
   */
  lemma ImproveTarget(q: Query, st: Scratch, closed: set<Id>, order: map<Id, nat>, via: map<Id, Edge>, bound: real, e: Edge, t: real)
    requires Inv(q, st, closed, order, via, bound)
    requires e in q.net.edges && e.from in closed && st.fScore[e.from] == bound
    requires e.from in q.net.stations && e.to in q.net.stations
    requires t == st.gScore[e.from] + q.W(e) && (e.to !in st.gScore || t < st.gScore[e.to])
    ensures e.to !in closed && e.to != q.origin && e.from != e.to
    ensures !(exists v :: v in st.cameFrom && st.cameFrom[v] == e.to)
  {
    NoReopen(q, st, closed, order, via, bound, e);
  }

  /** An improving relaxation out of the node selected last keeps the invariant and relaxes its edge. */
  lemma ImproveKeeps(q: Query, st: Scratch, closed: set<Id>, order: map<Id, nat>, via: map<Id, Edge>, bound: real, e: Edge, t: real)
    requires Inv(q, st, closed, order, via, bound)
    requires e in q.net.edges && e.from in closed && st.fScore[e.from] == bound
    requires e.from in q.net.stations && e.to in q.net.stations
    requires t == st.gScore[e.from] + q.W(e) && (e.to !in st.gScore || t < st.gScore[e.to])
    ensures Inv(q, Improve(st, e.from, e.to, t, q.H(e.to), e.kind == Transfer), closed, order, via[e.to := e], bound)
    ensures Relaxed(q, Improve(st, e.from, e.to, t, q.H(e.to), e.kind == Transfer), e)
    ensures Progress(st, Improve(st, e.from, e.to, t, q.H(e.to), e.kind == Transfer), closed)
  {
    ImproveTarget(q, st, closed, order, via, bound, e, t);
    Consistent(q.net, q.metric, q.opts, q.dest, e);
    ImproveShape(q, st, closed, e, t);
    ImproveRanked(st.cameFrom, closed, order, e.from, e.to);
    ImproveLinks(q, st.cameFrom, st.gScore, via, e, t);
    ImproveLayered(q, st, closed, bound, e, t);
  }

  /** The inner loop of a_star: relax every arc leaving `current`, in neighbour-list order. */
  method RelaxArcs(q: Query, current: Id, arcs: seq<Arc>, st: Scratch, ghost done: set<Id>,
                   ghost closed: set<Id>, ghost order: map<Id, nat>, ghost via: map<Id, Edge>, ghost bound: real)
    returns (st': Scratch, ghost via': map<Id, Edge>)
    requires Inv(q, st, closed, order, via, bound) && Counted(q, st.cameFrom, st.transfersCount, via)
    requires current in closed && st.fScore[current] == bound
    requires arcs == Adj(q.net, q.metric, q.opts, q.net.edges, current)
    requires closed == done + {current} && AllRelaxed(q, st, done)
    ensures st' == RelaxFrom(q, current, arcs, 0, st)
    ensures Inv(q, st', closed, order, via', bound) && Counted(q, st'.cameFrom, st'.transfersCount, via')
    ensures AllRelaxed(q, st', closed)
    ensures Progress(st, st', closed)
  {
    st', via' := st, via;
    ghost var goal := RelaxFrom(q, current, arcs, 0, st);
    for k := 0 to |arcs|
      invariant Inv(q, st', closed, order, via', bound) && Counted(q, st'.cameFrom, st'.transfersCount, via')
      invariant goal == RelaxFrom(q, current, arcs, k, st') && st'.fScore[current] == bound
      invariant AllRelaxed(q, st', done)
      invariant forall j :: 0 <= j < k ==> Relaxed(q, st', Edge(current, arcs[j].to, arcs[j].kind))
      invariant Progress(st, st', closed)
    {
      AdjSound(q.net, q.metric, q.opts, q.net.edges, current, k);
      ghost var before := st';
      st', via' := RelaxOne(q, current, arcs[k], st', closed, order, via', bound);
      ArcStep(q, current, arcs, k, st, before, st', done, closed);
    }
    ArcsCover(q, current, arcs, st', done, closed);
  }

  /** One more arc relaxed: earlier relaxations survive, and the progress relation composes. */
  lemma ArcStep(q: Query, current: Id, arcs: seq<Arc>, k: int, st: Scratch, before: Scratch, after: Scratch,
                done: set<Id>, closed: set<Id>)
    requires 0 <= k < |arcs| && current in closed && done <= closed && closed <= before.gScore.Keys
    requires AllRelaxed(q, before, done)
    requires forall j :: 0 <= j < k ==> Relaxed(q, before, Edge(current, arcs[j].to, arcs[j].kind))
    requires Relaxed(q, after, Edge(current, arcs[k].to, arcs[k].kind))
    requires Progress(st, before, closed) && Progress(before, after, closed)
    ensures AllRelaxed(q, after, done)
    ensures forall j :: 0 <= j < k + 1 ==> Relaxed(q, after, Edge(current, arcs[j].to, arcs[j].kind))
    ensures Progress(st, after, closed)
  {
    forall j | 0 <= j < k + 1 ensures Relaxed(q, after, Edge(current, arcs[j].to, arcs[j].kind)) {
      if j < k {
        RelaxedKept(q, before, after, closed, Edge(current, arcs[j].to, arcs[j].kind));
      }
    }
    forall i | 0 <= i < |q.net.edges| && q.net.edges[i].from in done ensures Relaxed(q, after, q.net.edges[i]) {
      RelaxedKept(q, before, after, closed, q.net.edges[i]);
    }
  }

  /** Once every arc of `current` is relaxed, every edge out of a closed node is relaxed. */
  lemma ArcsCover(q: Query, current: Id, arcs: seq<Arc>, st: Scratch, done: set<Id>, closed: set<Id>)
    requires q.Valid() && closed == done + {current}
    requires arcs == Adj(q.net, q.metric, q.opts, q.net.edges, current)
    requires AllRelaxed(q, st, done)
    requires forall j :: 0 <= j < |arcs| ==> Relaxed(q, st, Edge(current, arcs[j].to, arcs[j].kind))
    ensures AllRelaxed(q, st, closed)
  {
    forall i | 0 <= i < |q.net.edges| && q.net.edges[i].from in closed
      ensures Relaxed(q, st, q.net.edges[i])
    {
      var e := q.net.edges[i];
      if e.from == current {
        AdjComplete(q.net, q.metric, q.opts, q.net.edges, current, i);
        var j :| 0 <= j < |arcs| && arcs[j] == ArcOf(q.net, q.metric, q.opts, e);
        assert Edge(current, arcs[j].to, arcs[j].kind) == e;
      }
    }
  }

  // ---------------------------------------------------------------
  // What the finished search guarantees
  // ---------------------------------------------------------------

  /**
   * The predecessor structure handed to path reconstruction: the origin has
   * score 0 and no predecessor; every other scored node has one; every
   * predecessor link follows a listed edge whose search weight the child's
   * g-score covers, and the child's transfer count is its predecessor's
   * plus the link's; every predecessor is ranked, and ranks strictly
   * decrease along links between ranked nodes, so following the links from
   * any scored node cannot cycle; every ranked node other than the origin
   * has a predecessor.
   */
  ghost predicate Forest(q: Query, cameFrom: map<Id, Id>, g: map<Id, real>, tc: map<Id, nat>, via: map<Id, Edge>,
                         rank: map<Id, nat>)
    requires q.Valid()
  {
    q.origin in g && g[q.origin] == 0.0 && q.origin !in cameFrom &&
    (forall v :: v in g && v != q.origin ==> v in cameFrom) &&
    Links(q, cameFrom, g, via) && Counted(q, cameFrom, tc, via) &&
    (forall v {:trigger cameFrom[v]} :: v in cameFrom ==> cameFrom[v] in rank && (v in rank ==> rank[cameFrom[v]] < rank[v])) &&
    (forall v :: v in rank ==> v == q.origin || v in cameFrom)
  }

  /** `c` is at most the search score of every walk from x to y. */
  ghost predicate Cheapest(q: Query, x: Id, y: Id, c: real) {
    forall w :: IsWalk(q.net.edges, w, x, y) && EdgesKnown(q.net.stations, w) ==>
      c <= SearchCost(q.net, q.metric, q.opts, w)
  }

  /**
   * Along any walk from the origin, either the walk ends at a closed node
   * whose g-score it does not beat, or the selected node's f-score is
   * within the walk's score plus the heuristic at its end.
   */
  lemma {:induction false} WalkBound(q: Query, st: Scratch, closed: set<Id>, order: map<Id, nat>, via: map<Id, Edge>,
                                     bound: real, u: Id, w: seq<Edge>, y: Id)
    requires Inv(q, st, closed, order, via, bound) && AllRelaxed(q, st, closed)
    requires u in st.openSet && forall n :: n in st.openSet ==> st.fScore[u] <= st.fScore[n]
    requires IsWalk(q.net.edges, w, q.origin, y) && EdgesKnown(q.net.stations, w)
    ensures y in q.net.stations
    ensures (y in closed && st.gScore[y] <= SearchCost(q.net, q.metric, q.opts, w)) ||
            st.fScore[u] <= SearchCost(q.net, q.metric, q.opts, w) + q.H(y)
  {
    if w != [] {
      var init, e := w[..|w| - 1], w[|w| - 1];
      WalkInit(q.net.edges, w, q.origin, y);
      InitKnown(q.net.stations, w);
      WalkBound(q, st, closed, order, via, bound, u, init, e.from);
      Consistent(q.net, q.metric, q.opts, q.dest, e);
      if e.from in closed {
        var i :| 0 <= i < |q.net.edges| && q.net.edges[i] == e;
        assert Relaxed(q, st, q.net.edges[i]);
      }
    }
  }

  /** When the destination is selected, its g-score is the least search score over all walks to it. */
  lemma SelectedIsCheapest(q: Query, st: Scratch, closed: set<Id>, order: map<Id, nat>, via: map<Id, Edge>, bound: real, u: Id)
    requires Inv(q, st, closed, order, via, bound) && AllRelaxed(q, st, closed)
    requires IsLexMin(st.openSet, st.fScore, st.transfersCount, u)
    ensures Cheapest(q, q.origin, u, st.gScore[u])
  {
    forall w | IsWalk(q.net.edges, w, q.origin, u) && EdgesKnown(q.net.stations, w)
      ensures st.gScore[u] <= SearchCost(q.net, q.metric, q.opts, w)
    {
      WalkBound(q, st, closed, order, via, bound, u, w, u);
    }
  }

  /** Once the frontier is empty, every station a walk from the origin reaches has a score. */
  lemma {:induction false} ReachedScored(q: Query, st: Scratch, closed: set<Id>, order: map<Id, nat>, via: map<Id, Edge>,
                                         bound: real, w: seq<Edge>, y: Id)
    requires Inv(q, st, closed, order, via, bound) && AllRelaxed(q, st, closed)
    requires st.openSet == {}
    ensures IsWalk(q.net.edges, w, q.origin, y) ==> y in st.gScore
  {
    if w != [] && IsWalk(q.net.edges, w, q.origin, y) {
      var e := w[|w| - 1];
      WalkInit(q.net.edges, w, q.origin, y);
      ReachedScored(q, st, closed, order, via, bound, w[..|w| - 1], e.from);
      var i :| 0 <= i < |q.net.edges| && q.net.edges[i] == e;
      assert Relaxed(q, st, q.net.edges[i]);
    }
  }

  /** The state a_star starts from: only the origin is open and scored. */
  lemma InitialInv(q: Query)
    requires q.Valid()
    ensures Inv(q, Scratch({q.origin}, map[], map[q.origin := 0.0], map[q.origin := q.H(q.origin)],
                           map id | id in q.net.stations :: 0), {}, map[], map[], q.H(q.origin))
    ensures AllRelaxed(q, Scratch({q.origin}, map[], map[q.origin := 0.0], map[q.origin := q.H(q.origin)],
                                  map id | id in q.net.stations :: 0), {})
    ensures Counted(q, map[], map id | id in q.net.stations :: 0, map[])
  {
  }

  /** An exhausted frontier leaves the destination unscored, and then no walk reaches it. */
  lemma Exhausted(q: Query, st: Scratch, closed: set<Id>, order: map<Id, nat>, via: map<Id, Edge>, bound: real)
    requires Inv(q, st, closed, order, via, bound) && AllRelaxed(q, st, closed)
    requires st.openSet == {}
    ensures q.dest !in st.gScore && q.dest != q.origin && q.dest !in st.cameFrom
    ensures !Reachable(q.net.edges, q.origin, q.dest)
  {
    forall w ensures !IsWalk(q.net.edges, w, q.origin, q.dest) {
      ReachedScored(q, st, closed, order, via, bound, w, q.dest);
    }
  }

  lemma ForestOf(q: Query, st: Scratch, closed: set<Id>, order: map<Id, nat>, via: map<Id, Edge>, rank: map<Id, nat>)
    requires q.Valid() && Shape(q, st, closed) && Links(q, st.cameFrom, st.gScore, via) && Ranked(st.cameFrom, closed, order)
    requires Counted(q, st.cameFrom, st.transfersCount, via)
    requires rank == order || (q.dest in st.gScore && rank == order[q.dest := |closed|])
    ensures Forest(q, st.cameFrom, st.gScore, st.transfersCount, via, rank)
  {
    forall v | v in st.cameFrom
      ensures st.cameFrom[v] in rank && (v in rank ==> rank[st.cameFrom[v]] < rank[v])
    {
      assert st.cameFrom[v] in closed && st.cameFrom[v] != q.dest;
    }
    forall v | v in rank ensures v == q.origin || v in st.cameFrom {
      assert v in st.gScore;
    }
  }

  /**
   * The search loop of a_star. On return, the destination has a predecessor
   * (or is the origin) exactly when the search selected it, and then its
   * score is the least over all walks; otherwise no walk reaches it.
   */
  method Explore(q: Query, nb: map<Id, seq<Arc>>)
    returns (cameFrom: map<Id, Id>, ghost g: map<Id, real>, ghost tc: map<Id, nat>, ghost via: map<Id, Edge>,
             ghost rank: map<Id, nat>)
    requires q.Valid()
    requires forall u :: Neighbors(nb, u) == Adj(q.net, q.metric, q.opts, q.net.edges, u)
    ensures Forest(q, cameFrom, g, tc, via, rank)
    ensures q.dest in cameFrom || q.dest == q.origin ==>
              q.dest in g && q.dest in rank && Cheapest(q, q.origin, q.dest, g[q.dest])
    ensures !(q.dest in cameFrom || q.dest == q.origin) ==> !Reachable(q.net.edges, q.origin, q.dest)
  {
    var st := Scratch({q.origin}, map[], map[q.origin := 0.0], map[q.origin := q.H(q.origin)],
                      map id | id in q.net.stations :: 0);
    ghost var closed: set<Id> := {};
    ghost var order: map<Id, nat> := map[];
    via := map[];
    ghost var bound := q.H(q.origin);
    ghost var found := false;
    InitialInv(q);
    while st.openSet != {}
      invariant Inv(q, st, closed, order, via, bound) && Counted(q, st.cameFrom, st.transfersCount, via)
      invariant AllRelaxed(q, st, closed)
      invariant !found
      decreases q.net.stations.Keys - closed
    {
      LexMinExists(st.openSet, st.fScore, st.transfersCount);
      var current :| IsLexMin(st.openSet, st.fScore, st.transfersCount, current);
      if current == q.dest {
        SelectedIsCheapest(q, st, closed, order, via, bound, current);
        found := true;
        break;
      }
      SelectKeeps(q, st, closed, order, via, bound, current);
      st := st.(openSet := st.openSet - {current});
      order := order[current := |closed|];
      ghost var done := closed;
      closed := closed + {current};
      bound := st.fScore[current];
      var arcs := Neighbors(nb, current);
      st, via := RelaxArcs(q, current, arcs, st, done, closed, order, via, bound);
    }
    cameFrom, g, tc := st.cameFrom, st.gScore, st.transfersCount;
    if found {
      rank := order[q.dest := |closed|];
    } else {
      rank := order;
      Exhausted(q, st, closed, order, via, bound);
    }
    ForestOf(q, st, closed, order, via, rank);
  }
}
